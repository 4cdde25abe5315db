/** Sequential runs of the publish engine over the SQLite store: releases and drafts. */
module EngineRuns {
  import opened Seqs
  import opened ConfigTables
  import opened PublishEngine
  import StoreRuns
  import Decimal

  datatype EngineOp =
    | AddDraft(k: RowKey, value: string, operator: string, ts: string)
    | RemoveDraft(k: RowKey, operator: string, ts: string)
    | PublishAll(ns: string, note: string, operator: string, ts: string, fails: bool)
    | Grayscale(ns: string, note: string, operator: string, ts: string)
    | Rollout(ns: string, operator: string, id: int)

  function EngineStep(t: Tables, op: EngineOp): (Tables, bool) {
    match op
    case AddDraft(k, value, operator, ts) => DraftAdded(t, k, value, operator, ts)
    case RemoveDraft(k, operator, ts) => (Deleted(t, k, operator, true, ts), true)
    case PublishAll(ns, note, operator, ts, fails) =>
      if fails then (t, false) else (Published(t, ns, note, operator, ts), true)
    case Grayscale(_, _, _, _) => (t, false)
    case Rollout(ns, operator, id) =>
      if CanRollOut(t, id) then (RolledOut(t, ns, operator, id), true) else (t, false)
  }

  function EngineRun(t: Tables, ops: seq<EngineOp>): Tables {
    if ops == [] then t else EngineStep(EngineRun(t, ops[..|ops| - 1]), ops[|ops| - 1]).0
  }

  /** The store operations an engine operation issues from given tables. */
  function Lower(t: Tables, op: EngineOp): seq<StoreRuns.Op> {
    match op
    case AddDraft(k, value, operator, ts) =>
      [if Lookup(t, k, false).Some? then StoreRuns.Update(k, value, operator, true, ts)
       else StoreRuns.Create(k, value, operator, ts)]
    case RemoveDraft(k, operator, ts) => [StoreRuns.Delete(k, operator, true, ts)]
    case PublishAll(ns, note, operator, ts, fails) => [StoreRuns.Publish(ns, note, operator, ts, fails)]
    case Grayscale(_, _, _, _) => []
    case Rollout(ns, operator, id) =>
      if CanRollOut(t, id) then [StoreRuns.Retire(id), StoreRuns.AddRelease(RolloutRelease(ns, operator, id))] else []
  }

  function LowerAll(t: Tables, ops: seq<EngineOp>): seq<StoreRuns.Op> {
    if ops == [] then [] else
      var m := |ops| - 1;
      LowerAll(t, ops[..m]) + Lower(EngineRun(t, ops[..m]), ops[m])
  }

  lemma StepIsStoreRun(t: Tables, op: EngineOp)
    ensures StoreRuns.RunFrom(t, Lower(t, op)) == EngineStep(t, op).0
  {
    var ops := Lower(t, op);
    if |ops| == 1 {
      assert ops[..0] == [];
      assert StoreRuns.RunFrom(t, ops[..0]) == t;
    } else if |ops| == 2 {
      assert ops[..1][..0] == [];
      assert StoreRuns.RunFrom(t, ops[..1][..0]) == t;
      assert StoreRuns.RunFrom(t, ops[..1]) == Retired(t, op.id);
    }
  }

  /** Every engine run is a store run, so what every store run keeps holds of engine runs too. */
  lemma {:induction false} EngineRunIsStoreRun(t: Tables, ops: seq<EngineOp>)
    ensures EngineRun(t, ops) == StoreRuns.RunFrom(t, LowerAll(t, ops))
  {
    if ops != [] {
      var m := |ops| - 1;
      var before := EngineRun(t, ops[..m]);
      EngineRunIsStoreRun(t, ops[..m]);
      StepIsStoreRun(before, ops[m]);
      StoreRuns.RunConcat(t, LowerAll(t, ops[..m]), Lower(before, ops[m]));
    }
  }

  // Release versions.

  function Numbered(ns: string): Release -> bool { (r: Release) => r.ns == ns && r.version != 0 }
  function NonZero(): Release -> bool { (r: Release) => r.version != 0 }
  function IsActive(): Release -> bool { (r: Release) => r.status == "active" }

  /** The nonzero release versions of a namespace, in id order. */
  function VersionsIn(t: Tables, ns: string): seq<int> { ReleaseVersions(Filter(Numbered(ns), t.releases)) }

  predicate Consecutive(t: Tables, ns: string) {
    VersionsIn(t, ns) == StoreRuns.UpTo(|VersionsIn(t, ns)|)
  }

  /** When the numbered releases run 1..n, the publish query yields n. */
  lemma MaxIsCount(t: Tables, ns: string)
    requires Consecutive(t, ns)
    ensures MaxVersion(t.releases, ns) == |VersionsIn(t, ns)|
  {
    var mine, numbered := Filter(InNs(ns), t.releases), Filter(Numbered(ns), t.releases);
    FilterTwice(InNs(ns), NonZero(), Numbered(ns), t.releases);
    assert forall i :: 0 <= i < |numbered| ==> numbered[i].version == VersionsIn(t, ns)[i] == i + 1;
    if mine != [] {
      var m := MaxOf(mine);
      var r :| r in mine && r.version == m;
      if r.version != 0 { FilterComplete(NonZero(), mine, r); }
      if numbered != [] {
        FilterSound(NonZero(), mine);
        assert numbered[|numbered| - 1] in numbered;
      } else {
        EmptyFilter(NonZero(), mine);
      }
    }
  }

  lemma NumberedSnoc(t: Tables, t': Tables, r: Release, ns: string)
    requires t'.releases == t.releases + [r]
    ensures VersionsIn(t', ns) == VersionsIn(t, ns) + if r.ns == ns && r.version != 0 then [r.version] else []
  {
    FilterSnoc(Numbered(ns), t.releases, r);
  }

  lemma {:induction false} RetireKeepsVersions(rs: seq<Release>, rs': seq<Release>, ns: string)
    requires |rs| == |rs'|
    requires forall i :: 0 <= i < |rs| ==> rs'[i].ns == rs[i].ns && rs'[i].version == rs[i].version
    ensures ReleaseVersions(Filter(Numbered(ns), rs)) == ReleaseVersions(Filter(Numbered(ns), rs'))
  {
    if rs != [] {
      var m := |rs| - 1;
      RetireKeepsVersions(rs[..m], rs'[..m], ns);
      var kept, kept' := Filter(Numbered(ns), rs[..m]), Filter(Numbered(ns), rs'[..m]);
      assert ReleaseVersions(kept + [rs[m]]) == ReleaseVersions(kept) + [rs[m].version];
      assert ReleaseVersions(kept' + [rs'[m]]) == ReleaseVersions(kept') + [rs'[m].version];
    }
  }

  lemma StepConsecutive(t: Tables, op: EngineOp, ns: string)
    requires Consecutive(t, ns)
    ensures Consecutive(EngineStep(t, op).0, ns)
    ensures |VersionsIn(EngineStep(t, op).0, ns)|
            == |VersionsIn(t, ns)| + if op.PublishAll? && !op.fails && op.ns == ns then 1 else 0
  {
    var t' := EngineStep(t, op).0;
    if op.PublishAll? && !op.fails {
      if op.ns == ns { MaxIsCount(t, ns); }
      NumberedSnoc(t, t', t'.releases[|t.releases|], ns);
    } else if op.Rollout? && CanRollOut(t, op.id) {
      var retired := Retired(t, op.id);
      RetireKeepsVersions(t.releases, retired.releases, ns);
      NumberedSnoc(retired, t', t'.releases[|t.releases|], ns);
    }
  }

  function Publishes(ops: seq<EngineOp>, ns: string): nat {
    if ops == [] then 0 else
      var last := ops[|ops| - 1];
      Publishes(ops[..|ops| - 1], ns) + if last.PublishAll? && !last.fails && last.ns == ns then 1 else 0
  }

  /** In id order the nonzero release versions of a namespace are 1..n, n its successful publishes. */
  lemma {:induction false} ReleaseVersionsAreConsecutive(ops: seq<EngineOp>, ns: string)
    ensures VersionsIn(EngineRun(EMPTY, ops), ns) == StoreRuns.UpTo(Publishes(ops, ns))
  {
    if ops == [] {
      assert VersionsIn(EMPTY, ns) == StoreRuns.UpTo(0);
    } else {
      var m := |ops| - 1;
      ReleaseVersionsAreConsecutive(ops[..m], ns);
      StepConsecutive(EngineRun(EMPTY, ops[..m]), ops[m], ns);
    }
  }

  // The release lifecycle.

  predicate KnownStatus(r: Release) { r.status == "active" || r.status == "retired" }

  predicate ReleasesOk(t: Tables) {
    UniqueIds(t) && forall i :: 0 <= i < |t.releases| ==> KnownStatus(t.releases[i])
  }

  /** A release never changes except from active to retired, and none is removed. */
  predicate OnlyRetires(t: Tables, t': Tables) {
    && |t.releases| <= |t'.releases|
    && forall i :: 0 <= i < |t.releases| ==>
         || t'.releases[i] == t.releases[i]
         || (t.releases[i].status == "active" && t'.releases[i] == t.releases[i].(status := "retired"))
  }

  lemma StepReleases(t: Tables, op: EngineOp)
    requires ReleasesOk(t)
    ensures ReleasesOk(EngineStep(t, op).0) && OnlyRetires(t, EngineStep(t, op).0)
    ensures op.Rollout? && EngineStep(t, op).1 ==>
              && 1 <= op.id <= |t.releases| && t.releases[op.id - 1].status == "active"
              && EngineStep(t, op).0.releases[op.id - 1].status == "retired"
  {
    var t' := EngineStep(t, op).0;
    if op.Rollout? && CanRollOut(t, op.id) {
      var retired := Retired(t, op.id);
      assert t'.releases == retired.releases + [RolloutRelease(op.ns, op.operator, op.id).(id := |t.releases| + 1)];
    }
  }

  lemma StepActives(t: Tables, op: EngineOp)
    requires ReleasesOk(t)
    ensures Count(IsActive(), EngineStep(t, op).0.releases)
            == Count(IsActive(), t.releases) + if op.PublishAll? && !op.fails then 1 else 0
  {
    var t' := EngineStep(t, op).0;
    if op.PublishAll? && !op.fails {
      FilterSnoc(IsActive(), t.releases, t'.releases[|t.releases|]);
    } else if op.Rollout? && CanRollOut(t, op.id) {
      StepReleases(t, op);
      var i := op.id - 1;
      var gone := t.releases[i].(status := "retired");
      assert Retired(t, op.id).releases == t.releases[i := gone];
      CountReplaced(IsActive(), t.releases, i, gone);
      FilterSnoc(IsActive(), t.releases[i := gone], t'.releases[|t.releases|]);
    }
  }

  function AllPublishes(ops: seq<EngineOp>): nat {
    if ops == [] then 0 else
      var last := ops[|ops| - 1];
      AllPublishes(ops[..|ops| - 1]) + if last.PublishAll? && !last.fails then 1 else 0
  }

  /** Active releases number exactly the successful publishes: each rollout retires one and adds one. */
  lemma {:induction false} ActivesEqualPublishes(ops: seq<EngineOp>)
    ensures ReleasesOk(EngineRun(EMPTY, ops))
    ensures Count(IsActive(), EngineRun(EMPTY, ops).releases) == AllPublishes(ops)
  {
    if ops != [] {
      var m := |ops| - 1;
      ActivesEqualPublishes(ops[..m]);
      StepReleases(EngineRun(EMPTY, ops[..m]), ops[m]);
      StepActives(EngineRun(EMPTY, ops[..m]), ops[m]);
    }
  }

  /** Operation `i` of the run rolled its release out. */
  predicate RolloutSucceeds(ops: seq<EngineOp>, i: nat)
    requires i < |ops|
  {
    ops[i].Rollout? && EngineStep(EngineRun(EMPTY, ops[..i]), ops[i]).1
  }

  predicate IsRetired(t: Tables, id: int) { 1 <= id <= |t.releases| && t.releases[id - 1].status == "retired" }

  lemma RetiredStep(t: Tables, op: EngineOp, id: int)
    requires ReleasesOk(t)
    requires IsRetired(t, id) || (op.Rollout? && op.id == id && EngineStep(t, op).1)
    ensures IsRetired(EngineStep(t, op).0, id)
  {
    StepReleases(t, op);
    assert OnlyRetires(t, EngineStep(t, op).0);
  }

  lemma RetiredSnoc(ops: seq<EngineOp>, op: EngineOp, id: int)
    requires
      || IsRetired(EngineRun(EMPTY, ops), id)
      || (op.Rollout? && op.id == id && EngineStep(EngineRun(EMPTY, ops), op).1)
    ensures IsRetired(EngineRun(EMPTY, ops + [op]), id)
  {
    assert (ops + [op])[..|ops|] == ops;
    ActivesEqualPublishes(ops);
    RetiredStep(EngineRun(EMPTY, ops), op, id);
  }

  lemma {:induction false} RetiredStays(ops: seq<EngineOp>, i: nat)
    requires i < |ops| && RolloutSucceeds(ops, i)
    ensures IsRetired(EngineRun(EMPTY, ops), ops[i].id)
  {
    var m := |ops| - 1;
    assert ops == ops[..m] + [ops[m]];
    if i < m {
      assert ops[..m][..i] == ops[..i];
      RetiredStays(ops[..m], i);
    }
    RetiredSnoc(ops[..m], ops[m], ops[i].id);
  }

  /** No release id is rolled out twice in a sequential run. */
  lemma NoSecondRollout(ops: seq<EngineOp>, i: nat, j: nat)
    requires i < j < |ops| && RolloutSucceeds(ops, i) && RolloutSucceeds(ops, j)
    ensures ops[i].id != ops[j].id
  {
    assert ops[..j][..i] == ops[..i];
    RetiredStays(ops[..j], i);
    ActivesEqualPublishes(ops[..j]);
    StepReleases(EngineRun(EMPTY, ops[..j]), ops[j]);
  }

  // The release table, record by record.

  /** The releases a run has made, as they were made, and the ids it has rolled out; from the run alone. */
  datatype Made = Made(releases: seq<Release>, rolledOut: set<int>)

  /** A rollout succeeds when its release has been made and not been rolled out. */
  predicate Rollable(made: Made, id: int) { 1 <= id <= |made.releases| && id !in made.rolledOut }

  /** What one operation makes, after `published` publishes of its namespace. */
  function NextMade(before: Made, published: nat, op: EngineOp): Made {
    var next := |before.releases| + 1;
    match op
    case PublishAll(ns, note, operator, ts, fails) =>
      if fails then before else
        before.(releases := before.releases
          + [Release(next, ns, published + 1, note, "full", "active", None, None, operator, ts)])
    case Rollout(ns, operator, id) =>
      if !Rollable(before, id) then before else
        Made(
          before.releases + [Release(next, ns, 0, "Full rollout of release " + Decimal.PrintInt(id), "full", "active",
                                     None, None, operator, "")],
          before.rolledOut + {id})
    case _ => before
  }

  function Makes(ops: seq<EngineOp>): Made {
    if ops == [] then Made([], {}) else
      var m := |ops| - 1;
      NextMade(Makes(ops[..m]), if ops[m].PublishAll? then Publishes(ops[..m], ops[m].ns) else 0, ops[m])
  }

  /** The table holds the releases made, retired where they were rolled out. */
  predicate Holds(rs: seq<Release>, made: Made) {
    && |rs| == |made.releases|
    && (forall id :: id in made.rolledOut ==> 1 <= id <= |rs|)
    && forall i :: 0 <= i < |rs| ==>
         && made.releases[i].id == i + 1 && made.releases[i].status == "active"
         && rs[i] == if i + 1 in made.rolledOut then made.releases[i].(status := "retired") else made.releases[i]
  }

  lemma RollableIff(t: Tables, made: Made, id: int)
    requires Holds(t.releases, made)
    ensures CanRollOut(t, id) <==> Rollable(made, id)
  {
    if Rollable(made, id) { assert t.releases[id - 1].id == id && t.releases[id - 1].status == "active"; }
  }

  lemma RolloutHolds(t: Tables, made: Made, ns: string, operator: string, id: int)
    requires Holds(t.releases, made) && Rollable(made, id)
    ensures var r := Release(|made.releases| + 1, ns, 0, "Full rollout of release " + Decimal.PrintInt(id), "full",
                             "active", None, None, operator, "");
            Holds(RolledOut(t, ns, operator, id).releases, Made(made.releases + [r], made.rolledOut + {id}))
  {
  }

  lemma PublishHolds(t: Tables, made: Made, published: nat, op: EngineOp)
    requires Holds(t.releases, made) && op.PublishAll? && MaxVersion(t.releases, op.ns) == published
    ensures Holds(EngineStep(t, op).0.releases, NextMade(made, published, op))
  {
  }

  lemma NextHolds(t: Tables, made: Made, published: nat, op: EngineOp)
    requires Holds(t.releases, made) && (op.PublishAll? ==> MaxVersion(t.releases, op.ns) == published)
    ensures Holds(EngineStep(t, op).0.releases, NextMade(made, published, op))
  {
    if op.PublishAll? {
      PublishHolds(t, made, published, op);
    } else if op.Rollout? {
      RollableIff(t, made, op.id);
      if Rollable(made, op.id) { RolloutHolds(t, made, op.ns, op.operator, op.id); }
    }
  }

  lemma {:induction false} ReleaseTable(ops: seq<EngineOp>)
    ensures Holds(EngineRun(EMPTY, ops).releases, Makes(ops))
  {
    if ops != [] {
      var m := |ops| - 1;
      var op, t := ops[m], EngineRun(EMPTY, ops[..m]);
      ReleaseTable(ops[..m]);
      if op.PublishAll? {
        ReleaseVersionsAreConsecutive(ops[..m], op.ns);
        MaxIsCount(t, op.ns);
      }
      NextHolds(t, Makes(ops[..m]), if op.PublishAll? then Publishes(ops[..m], op.ns) else 0, op);
    }
  }

  /**
   * In every engine run the release table holds, record by record and field by field, one release for
   * each successful publish and rollout, in order, retired exactly when it was rolled out since; and the
   * next rollout succeeds if and only if its release is there and has not been rolled out.
   */
  lemma ReleasesAreMade(ops: seq<EngineOp>, ns: string, operator: string, id: int)
    ensures Holds(EngineRun(EMPTY, ops).releases, Makes(ops))
    ensures EngineStep(EngineRun(EMPTY, ops), Rollout(ns, operator, id)).1 <==> Rollable(Makes(ops), id)
  {
    ReleaseTable(ops);
    RollableIff(EngineRun(EMPTY, ops), Makes(ops), id);
  }

  /** The note of a rollout tells which release was rolled out. */
  lemma NotesNameReleases(ns: string, operator: string, a: int, b: int)
    ensures RolloutRelease(ns, operator, a).note == RolloutRelease(ns, operator, b).note <==> a == b
  {
    var text := "Full rollout of release ";
    Decimal.PrintIntInjective(a, b);
    assert forall n :: (text + Decimal.PrintInt(n))[|text|..] == Decimal.PrintInt(n);
  }

  function ZeroIn(ns: string): Release -> bool { (r: Release) => r.ns == ns && r.version == 0 }

  /** What a rollout to a namespace says, if it succeeds: who ordered it and which release it names. */
  function RolloutIn(made: Made, op: EngineOp, ns: string): seq<(string, string)> {
    if op.Rollout? && op.ns == ns && Rollable(made, op.id)
    then [(op.operator, "Full rollout of release " + Decimal.PrintInt(op.id))] else []
  }

  function RolloutsIn(ops: seq<EngineOp>, ns: string): seq<(string, string)> {
    if ops == [] then [] else
      var m := |ops| - 1;
      RolloutsIn(ops[..m], ns) + RolloutIn(Makes(ops[..m]), ops[m], ns)
  }

  function Says(rs: seq<Release>): (r: seq<(string, string)>)
    ensures |r| == |rs|
  {
    seq(|rs|, i requires 0 <= i < |rs| => (rs[i].operator, rs[i].note))
  }

  lemma NextZeros(made: Made, published: nat, op: EngineOp, ns: string)
    ensures Says(Filter(ZeroIn(ns), NextMade(made, published, op).releases))
            == Says(Filter(ZeroIn(ns), made.releases)) + RolloutIn(made, op, ns)
  {
    var before, after := made.releases, NextMade(made, published, op).releases;
    if |after| == |before| + 1 {
      var r, zeros := after[|before|], Filter(ZeroIn(ns), before);
      assert after == before + [r];
      FilterSnoc(ZeroIn(ns), before, r);
      assert Says(zeros + [r]) == Says(zeros) + [(r.operator, r.note)];
    } else {
      assert after == before;
    }
  }

  /** The version-0 releases of a namespace are its successful rollouts, one for one and in order. */
  lemma {:induction false} ZeroVersionsAreRollouts(ops: seq<EngineOp>, ns: string)
    ensures Says(Filter(ZeroIn(ns), Makes(ops).releases)) == RolloutsIn(ops, ns)
  {
    if ops != [] {
      var m := |ops| - 1;
      ZeroVersionsAreRollouts(ops[..m], ns);
      NextZeros(Makes(ops[..m]), if ops[m].PublishAll? then Publishes(ops[..m], ops[m].ns) else 0, ops[m], ns);
    }
  }

  // Drafts.

  predicate IsDraft(t: Tables, k: RowKey) { k in t.configs && t.configs[k].status == "draft" }

  /** The operation neither publishes the key's namespace nor removes the key. */
  predicate LeavesAlone(op: EngineOp, k: RowKey) {
    !(op.PublishAll? && op.ns == k.ns && !op.fails) && !(op.RemoveDraft? && op.k == k)
  }

  lemma DraftStepSticks(t: Tables, op: EngineOp, k: RowKey)
    requires IsDraft(t, k) && LeavesAlone(op, k)
    ensures IsDraft(EngineStep(t, op).0, k) && EngineStep(t, op).0.configs[k] == t.configs[k]
    ensures op.AddDraft? && op.k == k ==> EngineStep(t, op) == (t, false)
  {
  }

  lemma {:induction false} DraftSticks(t: Tables, ops: seq<EngineOp>, k: RowKey)
    requires IsDraft(t, k) && forall i :: 0 <= i < |ops| ==> LeavesAlone(ops[i], k)
    ensures IsDraft(EngineRun(t, ops), k) && EngineRun(t, ops).configs[k] == t.configs[k]
  {
    if ops != [] {
      DraftSticks(t, ops[..|ops| - 1], k);
      DraftStepSticks(EngineRun(t, ops[..|ops| - 1]), ops[|ops| - 1], k);
    }
  }

  lemma {:induction false} NotDraftSticks(t: Tables, ops: seq<EngineOp>, k: RowKey)
    requires !IsDraft(t, k)
    requires forall i :: 0 <= i < |ops| ==> LeavesAlone(ops[i], k) && !(ops[i].AddDraft? && ops[i].k == k)
    ensures !IsDraft(EngineRun(t, ops), k)
  {
    if ops != [] {
      NotDraftSticks(t, ops[..|ops| - 1], k);
    }
  }

  lemma {:induction false} EngineRunConcat(t: Tables, a: seq<EngineOp>, b: seq<EngineOp>)
    ensures EngineRun(t, a + b) == EngineRun(EngineRun(t, a), b)
  {
    if b == [] {
      assert a + b == a;
    } else {
      EngineRunConcat(t, a, b[..|b| - 1]);
      assert (a + b)[..|a + b| - 1] == a + b[..|b| - 1];
    }
  }

  /** From the first draft of the key on, the row stays as that draft left it. */
  lemma FirstDraftStays(start: Tables, window: seq<EngineOp>, k: RowKey, i: nat, j: nat)
    requires forall n :: 0 <= n < |window| ==> LeavesAlone(window[n], k)
    requires i < j <= |window| && window[i].AddDraft? && window[i].k == k
    requires !IsDraft(EngineRun(start, window[..i]), k)
    ensures EngineStep(EngineRun(start, window[..i]), window[i]).1
    ensures IsDraft(EngineRun(start, window[..j]), k)
    ensures EngineRun(start, window[..j]).configs[k].value == window[i].value
  {
    var drafted := EngineStep(EngineRun(start, window[..i]), window[i]).0;
    assert window[..i + 1][..i] == window[..i];
    assert EngineRun(start, window[..i + 1]) == drafted;
    var rest := window[i + 1..j];
    assert window[..j] == window[..i + 1] + rest;
    EngineRunConcat(start, window[..i + 1], rest);
    forall n | 0 <= n < |rest| ensures LeavesAlone(rest[n], k) { assert rest[n] == window[i + 1 + n]; }
    DraftSticks(drafted, rest, k);
  }

  /**
   * In a window that follows a successful publish of the namespace and holds neither another one nor
   * a removal of the key, the first draft of the key takes effect and stays, and every later one
   * returns false and leaves all four tables unchanged.
   */
  lemma OnlyFirstDraftCounts(t: Tables, publish: EngineOp, window: seq<EngineOp>, k: RowKey, i: nat)
    requires publish.PublishAll? && publish.ns == k.ns && !publish.fails
    requires forall j :: 0 <= j < |window| ==> LeavesAlone(window[j], k)
    requires i < |window| && window[i].AddDraft? && window[i].k == k
    requires forall j :: 0 <= j < i ==> !(window[j].AddDraft? && window[j].k == k)
    ensures var start := EngineStep(t, publish).0;
            && EngineStep(EngineRun(start, window[..i]), window[i]).1
            && IsDraft(EngineRun(start, window), k)
            && EngineRun(start, window).configs[k].value == window[i].value
            && (forall j :: i < j < |window| && window[j].AddDraft? && window[j].k == k ==>
                  EngineStep(EngineRun(start, window[..j]), window[j]) == (EngineRun(start, window[..j]), false))
  {
    var start := EngineStep(t, publish).0;
    NotDraftSticks(start, window[..i], k);
    FirstDraftStays(start, window, k, i, |window|);
    assert window[..|window|] == window;
    forall j | i < j < |window| && window[j].AddDraft? && window[j].k == k
      ensures EngineStep(EngineRun(start, window[..j]), window[j]) == (EngineRun(start, window[..j]), false)
    {
      FirstDraftStays(start, window, k, i, j);
      DraftStepSticks(EngineRun(start, window[..j]), window[j], k);
    }
  }
}
