/**
 * The tables of the versioned store and what each public operation of the SQLite store does to
 * them. Timestamps are opaque parameters; versions are unbounded here (see StoreRuns.VersionBound).
 */
module ConfigTables {
  import opened Seqs

  /** A row of `configs`; its primary key (namespace, key) is the key of the map that holds it. */
  datatype Row = Row(value: string, version: int, status: string, createdAt: string, updatedAt: string)
  datatype RowKey = RowKey(ns: string, key: string)

  datatype Version = Version(
    version: int, configId: string, value: string, changeType: string, operator: string, createdAt: string)

  datatype ChangeLog = ChangeLog(
    configId: string, at: RowKey, version: int, oldValue: string, newValue: string, operation: string,
    operator: string, createdAt: string)

  datatype Release = Release(
    id: int, ns: string, version: int, note: string, releaseType: string, status: string,
    grayscale: Option<int>, whitelist: Option<string>, operator: string, createdAt: string)

  /** `configs` is keyed; the other tables only grow, so they are sequences in insertion order. */
  datatype Tables = Tables(
    configs: map<RowKey, Row>, versions: seq<Version>, logs: seq<ChangeLog>, releases: seq<Release>)

  const EMPTY := Tables(map[], [], [], [])

  function MakeConfigId(k: RowKey): string { k.ns + ":" + k.key }

  // Configs

  function VersionEntry(k: RowKey, version: int, value: string, change: string, operator: string, ts: string): Version {
    Version(version, MakeConfigId(k), value, change, operator, ts)
  }

  function LogEntry(
    k: RowKey, version: int, before: string, after: string, change: string, operator: string, ts: string)
    : ChangeLog
  {
    ChangeLog(MakeConfigId(k), k, version, before, after, change, operator, ts)
  }

  /** Fails on the primary key when the row exists; otherwise row, version entry and log entry appear. */
  function Created(t: Tables, k: RowKey, value: string, operator: string, ts: string): (Tables, bool) {
    if k in t.configs then (t, false) else
      (t.(configs := t.configs[k := Row(value, 1, "draft", ts, ts)],
          versions := t.versions + [VersionEntry(k, 1, value, "create", operator, ts)],
          logs := t.logs + [LogEntry(k, 1, "", value, "create", operator, ts)]),
       true)
  }

  function Updated(t: Tables, k: RowKey, value: string, operator: string, draft: bool, ts: string): (Tables, bool) {
    if k !in t.configs then (t, false) else
      var row := t.configs[k];
      var version := row.version + 1;
      var status := if draft then "draft" else "live";
      (t.(configs := t.configs[k := row.(value := value, version := version, status := status, updatedAt := ts)],
          versions := t.versions + [VersionEntry(k, version, value, "update", operator, ts)],
          logs := t.logs + [LogEntry(k, version, row.value, value, "update", operator, ts)]),
       true)
  }

  /** A draft deletion removes only a draft row; the log entry is written either way. */
  function Deleted(t: Tables, k: RowKey, operator: string, draft: bool, ts: string): Tables {
    var removes := k in t.configs && (draft ==> t.configs[k].status == "draft");
    t.(configs := if removes then t.configs - {k} else t.configs,
       logs := t.logs + [LogEntry(k, 0, "", "", "delete", operator, ts)])
  }

  function Lookup(t: Tables, k: RowKey, includeDraft: bool): Option<Row> {
    if k !in t.configs || (!includeDraft && t.configs[k].status == "draft") then None else Some(t.configs[k])
  }

  /** The rows of a namespace; the order of the result vector is left to the database. */
  function Listing(t: Tables, ns: string, includeDraft: bool): map<RowKey, Row> {
    map k | k in t.configs && k.ns == ns && (includeDraft || t.configs[k].status != "draft") :: t.configs[k]
  }

  // Versions

  function OfConfig(id: string): Version -> bool { (v: Version) => v.configId == id }
  function OfConfigVersion(id: string, n: int): Version -> bool { (v: Version) => v.configId == id && v.version == n }

  /**
   * The entries `getConfigVersion` may return: the query has no order, so any match qualifies.
   */
  predicate IsVersionOf(t: Tables, k: RowKey, n: int, v: Version) {
    v in t.versions && v.configId == MakeConfigId(k) && v.version == n
  }

  // Releases

  function InNs(ns: string): Release -> bool { (r: Release) => r.ns == ns }

  /** The release version the publish query yields: the largest of the namespace, 0 if it has none. */
  function MaxVersion(releases: seq<Release>, ns: string): int {
    var mine := Filter(InNs(ns), releases);
    if mine == [] then 0 else MaxOf(mine)
  }

  function MaxOf(releases: seq<Release>): (m: int)
    requires releases != []
    ensures exists r :: r in releases && r.version == m
    ensures forall r :: r in releases ==> r.version <= m
  {
    var last := releases[|releases| - 1];
    if |releases| == 1 then last.version else
      var front := releases[..|releases| - 1];
      var m := MaxOf(front);
      assert releases == front + [last];
      if m < last.version then last.version else m
  }

  function ReleaseVersions(rs: seq<Release>): (v: seq<int>)
    ensures |v| == |rs|
  {
    seq(|rs|, i requires 0 <= i < |rs| => rs[i].version)
  }

  function NextId(releases: seq<Release>): int { |releases| + 1 }

  /** Autoincrement: the given id is ignored. */
  function ReleaseCreated(t: Tables, r: Release): Tables {
    t.(releases := t.releases + [r.(id := NextId(t.releases))])
  }

  function Retired(t: Tables, id: int): Tables {
    t.(releases := seq(|t.releases|, i requires 0 <= i < |t.releases| =>
         if t.releases[i].id == id then t.releases[i].(status := "retired") else t.releases[i]))
  }

  function AllLive(configs: map<RowKey, Row>, ns: string): map<RowKey, Row> {
    map k | k in configs :: if k.ns == ns then configs[k].(status := "live") else configs[k]
  }

  function NewRelease(t: Tables, ns: string, note: string, operator: string, ts: string): Release {
    Release(NextId(t.releases), ns, MaxVersion(t.releases, ns) + 1, note, "full", "active", None, None, operator, ts)
  }

  function Published(t: Tables, ns: string, note: string, operator: string, ts: string): Tables {
    t.(configs := AllLive(t.configs, ns), releases := t.releases + [NewRelease(t, ns, note, operator, ts)])
  }

  // Config ids

  /**
   * Two rows share a config id exactly when they are the same row or one namespace extends the other
   * by a colon and text that the other's key starts with.
   */
  lemma ConfigIdCollision(a: RowKey, b: RowKey)
    ensures MakeConfigId(a) == MakeConfigId(b) <==>
            || a == b
            || (exists x :: b.ns == a.ns + ":" + x && a.key == x + ":" + b.key)
            || (exists x :: a.ns == b.ns + ":" + x && b.key == x + ":" + a.key)
  {
    if MakeConfigId(a) == MakeConfigId(b) {
      if |a.ns| < |b.ns| {
        ShorterExtends(a, b);
      } else if |b.ns| < |a.ns| {
        ShorterExtends(b, a);
      } else {
        var id := MakeConfigId(a);
        assert a.ns == id[..|a.ns|] == b.ns;
        assert a.key == id[|a.ns| + 1..] == b.key;
      }
    }
    forall x | b.ns == a.ns + ":" + x && a.key == x + ":" + b.key ensures MakeConfigId(a) == MakeConfigId(b) {
      assert a.ns + ":" + (x + ":" + b.key) == (a.ns + ":" + x) + ":" + b.key;
    }
    forall x | a.ns == b.ns + ":" + x && b.key == x + ":" + a.key ensures MakeConfigId(a) == MakeConfigId(b) {
      assert b.ns + ":" + (x + ":" + a.key) == (b.ns + ":" + x) + ":" + a.key;
    }
  }

  lemma ShorterExtends(a: RowKey, b: RowKey)
    requires MakeConfigId(a) == MakeConfigId(b) && |a.ns| < |b.ns|
    ensures exists x :: b.ns == a.ns + ":" + x && a.key == x + ":" + b.key
  {
    var id := MakeConfigId(a);
    var x := id[|a.ns| + 1..|b.ns|];
    assert b.ns == id[..|b.ns|] == id[..|a.ns|] + [id[|a.ns|]] + x;
    assert a.key == id[|a.ns| + 1..] == x + [id[|b.ns|]] + id[|b.ns| + 1..];
    assert b.key == id[|b.ns| + 1..];
  }

  /** Keys without a colon make config ids unambiguous. */
  lemma ConfigIdInjective(a: RowKey, b: RowKey)
    requires ':' !in a.key && ':' !in b.key
    requires MakeConfigId(a) == MakeConfigId(b)
    ensures a == b
  {
    ConfigIdCollision(a, b);
    forall x ensures a.key != x + ":" + b.key { assert (x + ":" + b.key)[|x|] == ':'; }
    forall x ensures b.key != x + ":" + a.key { assert (x + ":" + a.key)[|x|] == ':'; }
  }
}
