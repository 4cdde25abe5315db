/**
 * What every run of the SQLite store keeps, from empty tables and over any sequence of operations
 * outside explicit transactions; module TransactionWindows says how the others come in.
 */
module StoreRuns {
  import opened Seqs
  import opened ConfigTables

  /** One public call, taking effect in one locked region. The second half of a rollback is an `Update`. */
  datatype Op =
    | Create(k: RowKey, value: string, operator: string, ts: string)
    | Update(k: RowKey, value: string, operator: string, draft: bool, ts: string)
    | Delete(k: RowKey, operator: string, draft: bool, ts: string)
    | Publish(ns: string, note: string, operator: string, ts: string, fails: bool)
    | AddRelease(release: Release)
    | Retire(id: int)

  function Step(t: Tables, op: Op): (Tables, bool) {
    match op
    case Create(k, value, operator, ts) => Created(t, k, value, operator, ts)
    case Update(k, value, operator, draft, ts) => Updated(t, k, value, operator, draft, ts)
    case Delete(k, operator, draft, ts) => (Deleted(t, k, operator, draft, ts), true)
    case Publish(ns, note, operator, ts, fails) =>
      if fails then (t, false) else (Published(t, ns, note, operator, ts), true)
    case AddRelease(release) => (ReleaseCreated(t, release), true)
    case Retire(id) => (Retired(t, id), true)
  }

  function RunFrom(t: Tables, ops: seq<Op>): Tables {
    if ops == [] then t else Step(RunFrom(t, ops[..|ops| - 1]), ops[|ops| - 1]).0
  }

  function Run(ops: seq<Op>): Tables { RunFrom(EMPTY, ops) }

  lemma {:induction false} RunConcat(t: Tables, a: seq<Op>, b: seq<Op>)
    ensures RunFrom(t, a + b) == RunFrom(RunFrom(t, a), b)
  {
    if b == [] {
      assert a + b == a;
    } else {
      var m := |b| - 1;
      RunConcat(t, a, b[..m]);
      assert (a + b)[..|a + b| - 1] == a + b[..m];
    }
  }

  /** The operation writes the value of row `k`. */
  predicate Writes(t: Tables, op: Op, k: RowKey) {
    || (op.Create? && op.k == k && k !in t.configs)
    || (op.Update? && op.k == k && k in t.configs)
  }

  // The audit trail.

  function IsChange(): ChangeLog -> bool { (l: ChangeLog) => l.operation != "delete" }
  function IsChangeAt(k: RowKey): ChangeLog -> bool { (l: ChangeLog) => l.operation != "delete" && l.at == k }

  /** The non-delete log entries, of the whole store and of one row. */
  function Changes(t: Tables): seq<ChangeLog> { Filter(IsChange(), t.logs) }
  function ChangesAt(t: Tables, k: RowKey): seq<ChangeLog> { Filter(IsChangeAt(k), t.logs) }

  predicate Describes(l: ChangeLog, v: Version) {
    && l.configId == v.configId && l.version == v.version && l.newValue == v.value
    && l.operation == v.changeType && l.operator == v.operator && l.createdAt == v.createdAt
  }

  predicate Matched(ls: seq<ChangeLog>, vs: seq<Version>) {
    |ls| == |vs| && forall i :: 0 <= i < |vs| ==> Describes(ls[i], vs[i])
  }

  /** Entry `i` opens a life of the row or continues from the entry before it. */
  predicate Linked(es: seq<ChangeLog>, i: nat)
    requires i < |es|
  {
    || (es[i].operation == "create" && es[i].version == 1 && es[i].oldValue == "")
    || (es[i].operation == "update" && i > 0
        && es[i].version == es[i - 1].version + 1 && es[i].oldValue == es[i - 1].newValue)
  }

  ghost predicate Chained(t: Tables, k: RowKey) {
    var es := ChangesAt(t, k);
    && (forall i :: 0 <= i < |es| ==> Linked(es, i))
    && (k in t.configs ==>
          es != [] && es[|es| - 1].version == t.configs[k].version && es[|es| - 1].newValue == t.configs[k].value)
  }

  lemma LogSnoc(t: Tables, t': Tables, e: ChangeLog)
    requires t'.logs == t.logs + [e]
    ensures Changes(t') == Changes(t) + if e.operation != "delete" then [e] else []
    ensures forall k :: ChangesAt(t', k) == ChangesAt(t, k) + if e.operation != "delete" && e.at == k then [e] else []
  {
    FilterSnoc(IsChange(), t.logs, e);
    forall k ensures ChangesAt(t', k) == ChangesAt(t, k) + if e.operation != "delete" && e.at == k then [e] else [] {
      FilterSnoc(IsChangeAt(k), t.logs, e);
    }
  }

  /** The step wrote row `op.k`: one log entry and one version entry, which describe the new row. */
  predicate Recorded(t: Tables, op: Op, t': Tables) {
    var change := if op.Create? then "create" else "update";
    && (op.Create? || op.Update?) && Writes(t, op, op.k) && op.k in t'.configs
    && t'.configs[op.k].value == op.value
    && t'.versions == t.versions + [VersionEntry(op.k, t'.configs[op.k].version, op.value, change, op.operator, op.ts)]
    && |t'.logs| == |t.logs| + 1 && t'.logs == t.logs + [t'.logs[|t.logs|]]
    && t'.logs[|t.logs|].at == op.k
    && Describes(t'.logs[|t.logs|], t'.versions[|t.versions|])
  }

  /** A step leaves log and versions alone, logs a deletion, or records one write of its own row. */
  lemma StepLogs(t: Tables, op: Op)
    ensures var t' := Step(t, op).0;
            || (t'.logs == t.logs && t'.versions == t.versions && forall k :: !Writes(t, op, k))
            || (op.Delete? && t'.versions == t.versions
                && t'.logs == t.logs + [LogEntry(op.k, 0, "", "", "delete", op.operator, op.ts)])
            || Recorded(t, op, t')
  {
  }

  lemma StepMatched(t: Tables, op: Op)
    requires Matched(Changes(t), t.versions)
    ensures Matched(Changes(Step(t, op).0), Step(t, op).0.versions)
  {
    var t' := Step(t, op).0;
    StepLogs(t, op);
    if t'.logs != t.logs {
      LogSnoc(t, t', t'.logs[|t.logs|]);
    }
  }

  /** A recorded write links its entry to the row's last one and agrees with the new row. */
  lemma RecordedChained(t: Tables, op: Op, t': Tables)
    requires t' == Step(t, op).0 && Recorded(t, op, t') && Chained(t, op.k)
    ensures Chained(t', op.k)
  {
    var es, e := ChangesAt(t, op.k), t'.logs[|t.logs|];
    LogSnoc(t, t', e);
    var es' := es + [e];
    assert ChangesAt(t', op.k) == es';
    forall i | 0 <= i < |es'| ensures Linked(es', i) {
      if i < |es| { assert Linked(es, i); }
    }
  }

  lemma StepChained(t: Tables, op: Op, k: RowKey)
    requires Chained(t, k)
    ensures Chained(Step(t, op).0, k)
  {
    var t' := Step(t, op).0;
    StepLogs(t, op);
    if Recorded(t, op, t') && op.k == k {
      RecordedChained(t, op, t');
    } else {
      if t'.logs != t.logs { LogSnoc(t, t', t'.logs[|t.logs|]); }
      assert ChangesAt(t', k) == ChangesAt(t, k);
    }
  }

  /**
   * The non-delete change-log entries are the version entries, one for one and in order, with the
   * same config, version, value, change type and operator.
   */
  lemma {:induction false} LogMatchesVersions(ops: seq<Op>)
    ensures Matched(Changes(Run(ops)), Run(ops).versions)
  {
    if ops != [] {
      LogMatchesVersions(ops[..|ops| - 1]);
      StepMatched(Run(ops[..|ops| - 1]), ops[|ops| - 1]);
    }
  }

  /**
   * Along one row's non-delete entries each update continues from the entry before it, in version
   * and in old value, and an existing row agrees with the last entry.
   */
  lemma {:induction false} LogChains(ops: seq<Op>, k: RowKey)
    ensures Chained(Run(ops), k)
  {
    if ops != [] {
      LogChains(ops[..|ops| - 1], k);
      StepChained(Run(ops[..|ops| - 1]), ops[|ops| - 1], k);
    }
  }

  // Versions and lives.

  function VersionsOf(t: Tables, k: RowKey): seq<Version> { Filter(OfConfig(MakeConfigId(k)), t.versions) }

  function Numbers(vs: seq<Version>): (r: seq<int>)
    ensures |r| == |vs|
  {
    seq(|vs|, i requires 0 <= i < |vs| => vs[i].version)
  }

  function UpTo(n: nat): seq<int> { seq(n, i => i + 1) }

  /** 1..lives[0], then 1..lives[1], and so on. */
  function Concatenated(lives: seq<nat>): seq<int> {
    if lives == [] then [] else Concatenated(lives[..|lives| - 1]) + UpTo(lives[|lives| - 1])
  }

  /** How many writes each life of row `k` saw, after one more operation. */
  function NextLives(t: Tables, lives: seq<nat>, op: Op, k: RowKey): seq<nat> {
    if !Writes(t, op, k) then lives
    else if op.Create? || lives == [] then lives + [1]
    else lives[|lives| - 1 := lives[|lives| - 1] + 1]
  }

  /** How many writes each life of row `k` saw in the run: creation opens a life, updates lengthen it. */
  function Lives(ops: seq<Op>, k: RowKey): seq<nat> {
    if ops == [] then [] else
      var m := |ops| - 1;
      NextLives(Run(ops[..m]), Lives(ops[..m], k), ops[m], k)
  }

  /** Operation `i` writes another row that has the config id of `k`. */
  predicate TwinWrite(ops: seq<Op>, k: RowKey, i: nat)
    requires i < |ops|
  {
    && (ops[i].Create? || ops[i].Update?)
    && ops[i].k != k && MakeConfigId(ops[i].k) == MakeConfigId(k)
    && Writes(Run(ops[..i]), ops[i], ops[i].k)
  }

  ghost predicate Twinned(ops: seq<Op>, k: RowKey) {
    exists i :: 0 <= i < |ops| && TwinWrite(ops, k, i)
  }

  function TwinWrites(ops: seq<Op>, k: RowKey): nat {
    if ops == [] then 0 else
      var m := |ops| - 1;
      TwinWrites(ops[..m], k) + if TwinWrite(ops, k, m) then 1 else 0
  }

  lemma {:induction false} TwinnedIffCounted(ops: seq<Op>, k: RowKey)
    ensures Twinned(ops, k) <==> TwinWrites(ops, k) > 0
  {
    if ops != [] {
      var m := |ops| - 1;
      TwinnedIffCounted(ops[..m], k);
      forall i | 0 <= i < m ensures TwinWrite(ops, k, i) <==> TwinWrite(ops[..m], k, i) {
        assert ops[..m][..i] == ops[..i];
      }
    }
  }

  lemma LifeOpens(lives: seq<nat>)
    ensures Concatenated(lives + [1]) == Concatenated(lives) + [1]
  {
    assert (lives + [1])[..|lives|] == lives;
    assert UpTo(1) == [1];
  }

  lemma LifeGoesOn(lives: seq<nat>)
    requires lives != []
    ensures var m := |lives| - 1; Concatenated(lives[m := lives[m] + 1]) == Concatenated(lives) + [lives[m] + 1]
  {
    var m := |lives| - 1;
    var longer := lives[m := lives[m] + 1];
    assert longer[..m] == lives[..m];
    assert UpTo(longer[m]) == UpTo(lives[m]) + [lives[m] + 1];
  }

  ghost predicate Lived(t: Tables, lives: seq<nat>, k: RowKey) {
    var vs := VersionsOf(t, k);
    && Numbers(vs) == Concatenated(lives)
    && (k in t.configs ==>
          && lives != [] && vs != []
          && t.configs[k].version == lives[|lives| - 1]
          && t.configs[k].value == vs[|vs| - 1].value)
  }

  lemma VersionSnoc(t: Tables, t': Tables, v: Version, k: RowKey)
    requires t'.versions == t.versions + [v]
    ensures VersionsOf(t', k) == VersionsOf(t, k) + if v.configId == MakeConfigId(k) then [v] else []
  {
    FilterSnoc(OfConfig(MakeConfigId(k)), t.versions, v);
  }

  lemma StepLived(t: Tables, lives: seq<nat>, op: Op, k: RowKey)
    requires Lived(t, lives, k)
    requires (op.Create? || op.Update?) && MakeConfigId(op.k) == MakeConfigId(k) && Writes(t, op, op.k) ==> op.k == k
    ensures Lived(Step(t, op).0, NextLives(t, lives, op, k), k)
  {
    var t' := Step(t, op).0;
    StepLogs(t, op);
    if Recorded(t, op, t') {
      VersionSnoc(t, t', t'.versions[|t.versions|], k);
      if op.k == k { OwnWriteLived(t, lives, op, t'); }
    } else {
      assert VersionsOf(t', k) == VersionsOf(t, k);
    }
  }

  lemma OwnWriteLived(t: Tables, lives: seq<nat>, op: Op, t': Tables)
    requires t' == Step(t, op).0 && Recorded(t, op, t') && Lived(t, lives, op.k)
    requires VersionsOf(t', op.k) == VersionsOf(t, op.k) + [t'.versions[|t.versions|]]
    ensures Lived(t', NextLives(t, lives, op, op.k), op.k)
  {
    var vs, v := VersionsOf(t, op.k), t'.versions[|t.versions|];
    assert Numbers(vs + [v]) == Numbers(vs) + [v.version];
    if op.Create? { LifeOpens(lives); } else { LifeGoesOn(lives); }
  }

  /**
   * In insertion order the version numbers of a row are 1..k1, 1..k2, ..., one block per life of the
   * row, and an existing row carries the number and the value of the last entry.
   */
  lemma {:induction false} VersionsFormLives(ops: seq<Op>, k: RowKey)
    requires TwinWrites(ops, k) == 0
    ensures Lived(Run(ops), Lives(ops, k), k)
  {
    if ops != [] {
      var m := |ops| - 1;
      VersionsFormLives(ops[..m], k);
      StepLived(Run(ops[..m]), Lives(ops[..m], k), ops[m], k);
    }
  }

  lemma StepLengths(t: Tables, lives: seq<nat>, op: Op, k: RowKey)
    requires op.Update? && op.k == k && k in t.configs ==> lives != []
    ensures |Concatenated(NextLives(t, lives, op, k))|
            == |Concatenated(lives)| + if Writes(t, op, k) then 1 else 0
    ensures |VersionsOf(Step(t, op).0, k)|
            == |VersionsOf(t, k)|
               + if (op.Create? || op.Update?) && MakeConfigId(op.k) == MakeConfigId(k) && Writes(t, op, op.k)
                 then 1 else 0
  {
    var t' := Step(t, op).0;
    if Writes(t, op, k) {
      if op.Create? { LifeOpens(lives); } else { LifeGoesOn(lives); }
    }
    StepLogs(t, op);
    if Recorded(t, op, t') {
      VersionSnoc(t, t', t'.versions[|t.versions|], k);
    }
  }

  lemma StepOpensLife(t: Tables, lives: seq<nat>, op: Op, k: RowKey)
    requires k in t.configs ==> lives != []
    ensures k in Step(t, op).0.configs ==> NextLives(t, lives, op, k) != []
  {
  }

  /** A row's version entries are its own writes and those of its twins. */
  lemma {:induction false} EntriesCounted(ops: seq<Op>, k: RowKey)
    ensures |VersionsOf(Run(ops), k)| == |Concatenated(Lives(ops, k))| + TwinWrites(ops, k)
    ensures k in Run(ops).configs ==> Lives(ops, k) != []
  {
    if ops != [] {
      var m := |ops| - 1;
      var t, lives := Run(ops[..m]), Lives(ops[..m], k);
      EntriesCounted(ops[..m], k);
      StepLengths(t, lives, ops[m], k);
      StepOpensLife(t, lives, ops[m], k);
    }
  }

  /** The version entries form the lives of the row exactly when no other row with its config id is written. */
  lemma VersionsFormLivesIff(ops: seq<Op>, k: RowKey)
    ensures Numbers(VersionsOf(Run(ops), k)) == Concatenated(Lives(ops, k)) <==> !Twinned(ops, k)
    ensures Lived(Run(ops), Lives(ops, k), k) <==> !Twinned(ops, k)
  {
    TwinnedIffCounted(ops, k);
    EntriesCounted(ops, k);
    if !Twinned(ops, k) {
      VersionsFormLives(ops, k);
    } else {
      assert |Numbers(VersionsOf(Run(ops), k))| != |Concatenated(Lives(ops, k))|;
    }
  }

  /** Keys without a colon, which the key pattern guarantees, have no twins. */
  lemma ColonFreeKeysHaveNoTwin(ops: seq<Op>, k: RowKey)
    requires ':' !in k.key
    requires forall i :: 0 <= i < |ops| && (ops[i].Create? || ops[i].Update?) ==> ':' !in ops[i].k.key
    ensures !Twinned(ops, k)
  {
    forall i | 0 <= i < |ops| ensures !TwinWrite(ops, k, i) {
      if TwinWrite(ops, k, i) { ConfigIdInjective(ops[i].k, k); }
    }
  }

  /** With colons in keys two rows can share a history: neither row was written twice, yet 1, 1. */
  lemma ColonsMixHistories()
    ensures var a, b := RowKey("n:x", "y"), RowKey("n", "x:y");
            var ops := [Create(a, "1", "o", "t"), Create(b, "2", "o", "t")];
            && Lives(ops, a) == [1]
            && Numbers(VersionsOf(Run(ops), a)) == [1, 1]
  {
    var a, b := RowKey("n:x", "y"), RowKey("n", "x:y");
    var ops := [Create(a, "1", "o", "t"), Create(b, "2", "o", "t")];
    assert MakeConfigId(a) == MakeConfigId(b);
    assert ops[..1] == [Create(a, "1", "o", "t")] && ops[..1][..0] == [];
    assert RunFrom(EMPTY, ops[..1][..0]) == EMPTY;
    var t1 := Run(ops[..1]);
    assert t1 == Created(EMPTY, a, "1", "o", "t").0;
    VersionSnoc(EMPTY, t1, t1.versions[0], a);
    VersionSnoc(t1, Run(ops), Run(ops).versions[1], a);
    assert Lives(ops[..1], a) == [1];
  }

  /** No version exceeds the number of operations so far, so an int32 version needs 2^31 of them to overflow. */
  lemma {:induction false} VersionBound(ops: seq<Op>, k: RowKey)
    ensures k in Run(ops).configs ==> 1 <= Run(ops).configs[k].version <= |ops|
  {
    if ops != [] {
      VersionBound(ops[..|ops| - 1], k);
    }
  }

  // Rollback.

  lemma {:induction false} VersionsOnlyGrow(t: Tables, ops: seq<Op>)
    ensures t.versions <= RunFrom(t, ops).versions
  {
    if ops != [] {
      VersionsOnlyGrow(t, ops[..|ops| - 1]);
    }
  }

  /**
   * A rollback reads the target entry `v` in one region and updates in a second, with any operations
   * `between`. It changes nothing, when the row is gone, or appends one entry with the target's value,
   * one above the row's version at the second region, as a draft; all earlier entries stay.
   */
  lemma RollbackAppendsTarget(
    ops: seq<Op>, between: seq<Op>, k: RowKey, n: int, v: Version, operator: string, ts: string)
    requires IsVersionOf(Run(ops), k, n, v)
    ensures var t := Run(ops + between);
            var (t', ok) := Updated(t, k, v.value, operator, true, ts);
            && Run(ops).versions <= t.versions <= t'.versions
            && IsVersionOf(t, k, n, v)
            && (ok <==> k in t.configs)
            && (!ok ==> t' == t)
            && (ok ==>
                  && |t'.versions| == |t.versions| + 1
                  && t'.versions[|t.versions|].value == v.value
                  && t'.versions[|t.versions|].version == t.configs[k].version + 1
                  && t'.configs.Keys == t.configs.Keys
                  && t'.configs[k].value == v.value && t'.configs[k].status == "draft"
                  && t'.configs[k].version == t.configs[k].version + 1
                  && (forall other :: other in t.configs && other != k ==> t'.configs[other] == t.configs[other]))
  {
    RunConcat(EMPTY, ops, between);
    VersionsOnlyGrow(Run(ops), between);
  }

  /** Operation `i` wrote the value of entry `v` under its config id, as that version of its row. */
  predicate WroteEntry(ops: seq<Op>, i: nat, v: Version)
    requires i < |ops|
  {
    var t, op := Run(ops[..i]), ops[i];
    && (op.Create? || op.Update?) && MakeConfigId(op.k) == v.configId && op.value == v.value
    && Writes(t, op, op.k)
    && v.version == if op.k in t.configs then t.configs[op.k].version + 1 else 1
  }

  /** Every version entry was written by some operation of the run. */
  lemma {:induction false} EntriesWereWritten(ops: seq<Op>, v: Version)
    requires v in Run(ops).versions
    ensures exists i :: 0 <= i < |ops| && WroteEntry(ops, i, v)
  {
    var m := |ops| - 1;
    var t, op := Run(ops[..m]), ops[m];
    StepLogs(t, op);
    if v in t.versions {
      EntriesWereWritten(ops[..m], v);
      var i :| 0 <= i < m && WroteEntry(ops[..m], i, v);
      assert ops[..m][..i] == ops[..i];
      assert WroteEntry(ops, i, v);
    } else {
      assert WroteEntry(ops, m, v);
    }
  }

  /** A rollback of a row without twins restores a value that was written to that very row, as version `n`. */
  lemma RollbackRestoresOwnValue(ops: seq<Op>, k: RowKey, n: int, v: Version)
    requires IsVersionOf(Run(ops), k, n, v) && !Twinned(ops, k)
    ensures v.version == n && exists i :: 0 <= i < |ops| && WroteEntry(ops, i, v) && ops[i].k == k
  {
    EntriesWereWritten(ops, v);
    var i :| 0 <= i < |ops| && WroteEntry(ops, i, v);
    assert !TwinWrite(ops, k, i);
  }

  // The live view.

  predicate StatusesKnown(t: Tables) {
    forall k :: k in t.configs ==> t.configs[k].status == "draft" || t.configs[k].status == "live"
  }

  lemma {:induction false} StatusesStayKnown(t: Tables, ops: seq<Op>)
    requires StatusesKnown(t)
    ensures StatusesKnown(RunFrom(t, ops))
  {
    if ops != [] {
      StatusesStayKnown(t, ops[..|ops| - 1]);
    }
  }

  /** One row as the run alone determines it; the reference the store is compared with. */
  datatype Seen = Absent | Present(value: string, version: int, live: bool, created: string, written: string)

  /** How one operation changes row `k`, from the operation alone. */
  function Observe(seen: Seen, op: Op, k: RowKey): Seen {
    match op
    case Create(k', value, _, ts) => if k' == k && seen.Absent? then Present(value, 1, false, ts, ts) else seen
    case Update(k', value, _, draft, ts) =>
      if k' == k && seen.Present? then Present(value, seen.version + 1, !draft, seen.created, ts) else seen
    case Delete(k', _, draft, _) => if k' == k && seen.Present? && (draft ==> !seen.live) then Absent else seen
    case Publish(ns, _, _, _, fails) => if ns == k.ns && seen.Present? && !fails then seen.(live := true) else seen
    case _ => seen
  }

  function View(ops: seq<Op>, k: RowKey): Seen {
    if ops == [] then Absent else Observe(View(ops[..|ops| - 1], k), ops[|ops| - 1], k)
  }

  function SeenOf(t: Tables, k: RowKey): Seen {
    if k in t.configs then
      var row := t.configs[k];
      Present(row.value, row.version, row.status == "live", row.createdAt, row.updatedAt)
    else Absent
  }

  lemma ObserveStep(t: Tables, op: Op, k: RowKey)
    requires StatusesKnown(t)
    ensures SeenOf(Step(t, op).0, k) == Observe(SeenOf(t, k), op, k)
  {
  }

  /** The configs table refines the per-row automaton: each row, all of it, is a fold of the run. */
  lemma {:induction false} ViewIsFold(ops: seq<Op>, k: RowKey)
    ensures SeenOf(Run(ops), k) == View(ops, k)
  {
    if ops != [] {
      var m := |ops| - 1;
      ViewIsFold(ops[..m], k);
      StatusesStayKnown(EMPTY, ops[..m]);
      ObserveStep(Run(ops[..m]), ops[m], k);
    }
  }

  /** What the two kinds of readers get, from the run alone: every field of the row, or nothing. */
  lemma ReaderSeesFold(ops: seq<Op>, k: RowKey, includeDraft: bool)
    ensures Lookup(Run(ops), k, includeDraft)
            == match View(ops, k)
               case Absent => None
               case Present(value, version, live, created, written) =>
                 if live then Some(Row(value, version, "live", created, written))
                 else if includeDraft then Some(Row(value, version, "draft", created, written))
                 else None
  {
    ViewIsFold(ops, k);
    StatusesStayKnown(EMPTY, ops);
  }

  /** A listing holds exactly the rows of the namespace that a lookup finds, as the lookup finds them. */
  lemma ListingIsLookups(t: Tables, ns: string, includeDraft: bool, k: RowKey)
    ensures var rows := Listing(t, ns, includeDraft);
            && (k in rows <==> k.ns == ns && Lookup(t, k, includeDraft).Some?)
            && (k in rows ==> Lookup(t, k, includeDraft) == Some(rows[k]))
  {
  }

  // The log and the versions, entry by entry.

  /** The log entry an operation owes when its row is as `seen`: writes that take place, and every deletion. */
  function Owed(seen: Seen, op: Op): seq<ChangeLog> {
    match op
    case Create(k, value, operator, ts) =>
      if seen.Present? then [] else [ChangeLog(k.ns + ":" + k.key, k, 1, "", value, "create", operator, ts)]
    case Update(k, value, operator, _, ts) =>
      if seen.Absent? then []
      else [ChangeLog(k.ns + ":" + k.key, k, seen.version + 1, seen.value, value, "update", operator, ts)]
    case Delete(k, operator, _, ts) => [ChangeLog(k.ns + ":" + k.key, k, 0, "", "", "delete", operator, ts)]
    case _ => []
  }

  predicate OnRow(op: Op) { op.Create? || op.Update? || op.Delete? }

  /** The log a run owes, from the run alone. */
  function Ledger(ops: seq<Op>): seq<ChangeLog> {
    if ops == [] then [] else
      var m := |ops| - 1;
      Ledger(ops[..m]) + if OnRow(ops[m]) then Owed(View(ops[..m], ops[m].k), ops[m]) else []
  }

  /** The versions a run owes: one for each logged change, without the old value. */
  function VersionLedger(ops: seq<Op>): seq<Version> {
    if ops == [] then [] else
      var m := |ops| - 1;
      var owed := if OnRow(ops[m]) then Owed(View(ops[..m], ops[m].k), ops[m]) else [];
      VersionLedger(ops[..m])
      + if owed == [] || ops[m].Delete? then [] else
          var l := owed[0];
          [Version(l.version, l.configId, l.newValue, l.operation, l.operator, l.createdAt)]
  }

  lemma StepOwes(t: Tables, op: Op)
    ensures var t' := Step(t, op).0;
            && t'.logs == t.logs + (if OnRow(op) then Owed(SeenOf(t, op.k), op) else [])
            && (OnRow(op) && !op.Delete? && Owed(SeenOf(t, op.k), op) != [] ==>
                  var l := Owed(SeenOf(t, op.k), op)[0];
                  t'.versions
                  == t.versions + [Version(l.version, l.configId, l.newValue, l.operation, l.operator, l.createdAt)])
            && (!OnRow(op) || op.Delete? || Owed(SeenOf(t, op.k), op) == [] ==> t'.versions == t.versions)
  {
  }

  /** In every run the log and the version table are, entry by entry and field by field, what the run owes. */
  lemma {:induction false} LogIsLedger(ops: seq<Op>)
    ensures Run(ops).logs == Ledger(ops) && Run(ops).versions == VersionLedger(ops)
  {
    if ops != [] {
      var m := |ops| - 1;
      LogIsLedger(ops[..m]);
      StepOwes(Run(ops[..m]), ops[m]);
      if OnRow(ops[m]) { ViewIsFold(ops[..m], ops[m].k); }
    }
  }

  function IsDeleteAt(k: RowKey): ChangeLog -> bool { (l: ChangeLog) => l.operation == "delete" && l.at == k }

  /** The record of one operation, if it asks for a deletion of `k`. */
  function DeletionOf(op: Op, k: RowKey): seq<ChangeLog> {
    if op.Delete? && op.k == k
    then [ChangeLog(k.ns + ":" + k.key, k, 0, "", "", "delete", op.operator, op.ts)] else []
  }

  /** The record of each deletion of `k` the run asked for, whether or not it removed a row. */
  function DeletionsOf(ops: seq<Op>, k: RowKey): seq<ChangeLog> {
    if ops == [] then [] else DeletionsOf(ops[..|ops| - 1], k) + DeletionOf(ops[|ops| - 1], k)
  }

  lemma StepDeletion(t: Tables, op: Op, k: RowKey)
    ensures Filter(IsDeleteAt(k), Step(t, op).0.logs) == Filter(IsDeleteAt(k), t.logs) + DeletionOf(op, k)
  {
    var t' := Step(t, op).0;
    var owed := if OnRow(op) then Owed(SeenOf(t, op.k), op) else [];
    StepOwes(t, op);
    if owed == [] {
      assert t'.logs == t.logs;
    } else {
      assert owed == [owed[0]];
      FilterSnoc(IsDeleteAt(k), t.logs, owed[0]);
    }
  }

  /** The logged deletions of a row are, one for one and in order, the deletions asked for. */
  lemma {:induction false} DeletionsAreLogged(ops: seq<Op>, k: RowKey)
    ensures Filter(IsDeleteAt(k), Run(ops).logs) == DeletionsOf(ops, k)
  {
    if ops != [] {
      var m := |ops| - 1;
      DeletionsAreLogged(ops[..m], k);
      StepDeletion(Run(ops[..m]), ops[m], k);
    }
  }

  /** The operation makes row `k` live. */
  predicate MakesLive(t: Tables, op: Op, k: RowKey) {
    || (op.Publish? && op.ns == k.ns && !op.fails)
    || (op.Update? && op.k == k && k in t.configs && !op.draft)
  }

  /** The index of the last write of `k` in the run, or -1. */
  function LastWrite(ops: seq<Op>, k: RowKey): (w: int)
    ensures -1 <= w < |ops|
  {
    if ops == [] then -1 else
      var m := |ops| - 1;
      if Writes(Run(ops[..m]), ops[m], k) then m else LastWrite(ops[..m], k)
  }

  predicate MadeLiveAt(ops: seq<Op>, k: RowKey, j: nat)
    requires j < |ops|
  {
    MakesLive(Run(ops[..j]), ops[j], k)
  }

  /** Row `k` was made live at or after its last write. */
  ghost predicate LiveSinceWrite(ops: seq<Op>, k: RowKey) {
    exists j :: 0 <= LastWrite(ops, k) <= j < |ops| && MadeLiveAt(ops, k, j)
  }

  lemma LiveSinceWriteSnoc(ops: seq<Op>, k: RowKey)
    requires ops != []
    ensures var m := |ops| - 1;
            LiveSinceWrite(ops, k) <==>
            0 <= LastWrite(ops, k) && (MadeLiveAt(ops, k, m) || (LastWrite(ops, k) != m && LiveSinceWrite(ops[..m], k)))
  {
    var m := |ops| - 1;
    forall j | 0 <= j < m ensures MadeLiveAt(ops, k, j) <==> MadeLiveAt(ops[..m], k, j) {
      assert ops[..m][..j] == ops[..j];
    }
    if 0 <= LastWrite(ops, k) && MadeLiveAt(ops, k, m) { assert 0 <= LastWrite(ops, k) <= m < |ops|; }
    if LastWrite(ops, k) != m && LiveSinceWrite(ops[..m], k) {
      var j :| 0 <= LastWrite(ops[..m], k) <= j < |ops[..m]| && MadeLiveAt(ops[..m], k, j);
      assert MadeLiveAt(ops, k, j);
    }
  }

  /** The index of the create that opened the row's last life, or -1. */
  function LastCreate(ops: seq<Op>, k: RowKey): (w: int)
    ensures -1 <= w < |ops|
  {
    if ops == [] then -1 else
      var m := |ops| - 1;
      if ops[m].Create? && Writes(Run(ops[..m]), ops[m], k) then m else LastCreate(ops[..m], k)
  }

  /** Row `k`, if there is one, was created at `created` and has been written as often as its last life says. */
  predicate KnowsLife(t: Tables, lives: seq<nat>, created: string, k: RowKey) {
    k in t.configs ==>
      lives != [] && t.configs[k].version == lives[|lives| - 1] && t.configs[k].createdAt == created
  }

  lemma StepKnowsLife(t: Tables, lives: seq<nat>, created: string, op: Op, k: RowKey)
    requires KnowsLife(t, lives, created, k)
    ensures KnowsLife(Step(t, op).0, NextLives(t, lives, op, k),
                      if op.Create? && Writes(t, op, k) then op.ts else created, k)
    ensures k in Step(t, op).0.configs ==> k in t.configs || (op.Create? && Writes(t, op, k))
  {
  }

  function CreatedAt(ops: seq<Op>, k: RowKey): string {
    var c := LastCreate(ops, k);
    if 0 <= c && ops[c].Create? then ops[c].ts else ""
  }

  /** A row carries the time of its creation and, as version, the number of writes of its last life. */
  lemma {:induction false} RowKnowsItsLife(ops: seq<Op>, k: RowKey)
    ensures KnowsLife(Run(ops), Lives(ops, k), CreatedAt(ops, k), k)
    ensures k in Run(ops).configs ==> 0 <= LastCreate(ops, k) && ops[LastCreate(ops, k)].Create?
  {
    if ops != [] {
      var m := |ops| - 1;
      RowKnowsItsLife(ops[..m], k);
      StepKnowsLife(Run(ops[..m]), Lives(ops[..m], k), CreatedAt(ops[..m], k), ops[m], k);
    }
  }

  /**
   * A reader including drafts sees a key exactly when its row exists; one excluding them exactly when
   * besides a successful publish of its namespace, or a non-draft update, came at or after the row's
   * last write. Both see the value and the time of that last write, the time of the create that opened
   * the row's life and, as version, the number of writes in that life.
   */
  lemma LiveReaderSeesLastWrite(ops: seq<Op>, k: RowKey, includeDraft: bool)
    ensures var t, w := Run(ops), LastWrite(ops, k);
            var seen, lives, c := Lookup(t, k, includeDraft), Lives(ops, k), LastCreate(ops, k);
            && (seen.Some? <==> k in t.configs && (includeDraft || LiveSinceWrite(ops, k)))
            && (seen.Some? ==>
                  && 0 <= c <= w && lives != [] && (ops[w].Create? || ops[w].Update?) && ops[w].k == k && ops[c].Create?
                  && seen.value == Row(ops[w].value, lives[|lives| - 1],
                                       if LiveSinceWrite(ops, k) then "live" else "draft", ops[c].ts, ops[w].ts))
  {
    LiveRow(ops, k);
    RowKnowsItsLife(ops, k);
    LastCreateFirst(ops, k);
    StatusesStayKnown(EMPTY, ops);
  }

  lemma {:induction false} LastCreateFirst(ops: seq<Op>, k: RowKey)
    ensures LastCreate(ops, k) <= LastWrite(ops, k)
  {
    if ops != [] { LastCreateFirst(ops[..|ops| - 1], k); }
  }

  lemma {:induction false} LiveRow(ops: seq<Op>, k: RowKey)
    ensures var t, w := Run(ops), LastWrite(ops, k);
            && (Lookup(t, k, false).Some? <==> k in t.configs && LiveSinceWrite(ops, k))
            && (k in t.configs ==>
                  && 0 <= w && (ops[w].Create? || ops[w].Update?) && ops[w].k == k
                  && ops[w].value == t.configs[k].value && ops[w].ts == t.configs[k].updatedAt)
  {
    if ops != [] {
      var m := |ops| - 1;
      LiveRow(ops[..m], k);
      StatusesStayKnown(EMPTY, ops[..m]);
      LiveSinceWriteSnoc(ops, k);
      LiveStep(Run(ops[..m]), ops[m], k);
    }
  }

  /** What one operation does to a row's existence, value and visibility. */
  lemma LiveStep(t: Tables, op: Op, k: RowKey)
    requires StatusesKnown(t)
    ensures var t' := Step(t, op).0;
            && (Writes(t, op, k) ==>
                  && k in t'.configs && t'.configs[k].value == op.value && t'.configs[k].updatedAt == op.ts
                  && (t'.configs[k].status == "live" <==> MakesLive(t, op, k)))
            && (!Writes(t, op, k) && k in t'.configs ==>
                  && k in t.configs && t'.configs[k].value == t.configs[k].value
                  && t'.configs[k].updatedAt == t.configs[k].updatedAt
                  && (t'.configs[k].status == "live" <==> MakesLive(t, op, k) || t.configs[k].status == "live"))
            && StatusesKnown(t')
  {
  }

  /** A draft edit of a published key hides it from live readers until the next publish. */
  lemma DraftEditHidesLiveKey(t: Tables, k: RowKey, value: string, operator: string, ts: string)
    requires Lookup(t, k, false).Some?
    ensures var t' := Updated(t, k, value, operator, true, ts).0;
            && Lookup(t', k, false) == None
            && Lookup(Published(t', k.ns, "", operator, ts), k, false).Some?
            && Lookup(Published(t', k.ns, "", operator, ts), k, false).value.value == value
  {
  }
}
