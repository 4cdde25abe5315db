/**
 * The MySQL store. Statements report failure through a flag that most methods ignore; a duplicate
 * primary key or a namespace missing from the foreign key's table makes an insert fail and nothing
 * else. Every method borrows one connection from the pool and returns it, except the three explicit
 * transaction calls.
 */
module MysqlStore {
  import opened Seqs
  import opened ConfigTables

  /** The insert into `configs` may fail, but the version and log entries follow anyway. */
  function MysqlCreated(
    t: Tables, namespaces: set<string>, k: RowKey, value: string, operator: string, ts: string): Tables
  {
    var inserts := k !in t.configs && k.ns in namespaces;
    t.(configs := if inserts then t.configs[k := Row(value, 1, "draft", ts, ts)] else t.configs,
       versions := t.versions + [VersionEntry(k, 1, value, "create", operator, ts)],
       logs := t.logs + [LogEntry(k, 1, "", value, "create", operator, ts)])
  }

  /** The live rows are those whose status is "live", not those whose status is not "draft". */
  function MysqlListing(t: Tables, ns: string, includeDraft: bool): map<RowKey, Row> {
    map k | k in t.configs && k.ns == ns && (includeDraft || t.configs[k].status == "live") :: t.configs[k]
  }

  /** NULL from an empty table means 1. */
  function NextVersion(releases: seq<Release>, ns: string): int {
    if Filter(InNs(ns), releases) == [] then 1 else MaxOf(Filter(InNs(ns), releases)) + 1
  }

  /** `marked` and `inserted` are the ignored results of the two statements of a publish. */
  function MysqlPublished(
    t: Tables, ns: string, note: string, operator: string, ts: string, marked: bool, inserted: bool): Tables
  {
    var release := Release(
      NextId(t.releases), ns, NextVersion(t.releases, ns), note, "full", "active", None, None, operator, ts);
    t.(configs := if marked then AllLive(t.configs, ns) else t.configs,
       releases := if inserted then t.releases + [release] else t.releases)
  }

  /** The timestamp is the server's, whatever the record said; a missing namespace refuses the insert. */
  function MysqlReleaseCreated(t: Tables, namespaces: set<string>, r: Release, ts: string): Tables {
    if r.ns in namespaces then ReleaseCreated(t, r.(createdAt := ts)) else t
  }

  /** A call that finds the pool empty waits for a connection and has not returned. */
  datatype Reply<+T> = Blocked | Returned(value: T)

  class MysqlConfigStore {
    var idle: seq<nat>
    var namespaces: set<string>
    var configs: map<RowKey, Row>
    var versions: seq<Version>
    var logs: seq<ChangeLog>
    var releases: seq<Release>

    ghost function View(): Tables
      reads this
    {
      Tables(configs, versions, logs, releases)
    }

    constructor (poolSize: nat, namespaces: set<string>)
      ensures View() == EMPTY && |idle| == poolSize && this.namespaces == namespaces
    {
      idle := seq(poolSize, i => i);
      this.namespaces := namespaces;
      configs, versions, logs, releases := map[], [], [], [];
    }

    method Acquire() returns (conn: Reply<nat>)
      modifies this`idle
      ensures old(idle) == [] ==> conn == Blocked && idle == []
      ensures old(idle) != [] ==> conn == Returned(old(idle)[0]) && idle == old(idle)[1..]
    {
      if idle == [] {
        return Blocked;
      }
      conn := Returned(idle[0]);
      idle := idle[1..];
    }

    method Release(conn: nat)
      modifies this`idle
      ensures idle == old(idle) + [conn]
    {
      idle := idle + [conn];
    }

    method CreateConfig(k: RowKey, value: string, operator: string, ts: string) returns (r: Reply<bool>)
      modifies this
      ensures r == if old(idle) == [] then Blocked else Returned(true)
      ensures r.Blocked? ==> View() == old(View()) && idle == old(idle)
      ensures r.Returned? ==>
                View() == MysqlCreated(old(View()), namespaces, k, value, operator, ts)
                && idle == old(idle)[1..] + [old(idle)[0]]
      ensures namespaces == old(namespaces)
    {
      var conn := Acquire();
      if conn.Blocked? {
        return Blocked;
      }
      if k !in configs && k.ns in namespaces {
        configs := configs[k := Row(value, 1, "draft", ts, ts)];
      }
      versions := versions + [VersionEntry(k, 1, value, "create", operator, ts)];
      logs := logs + [LogEntry(k, 1, "", value, "create", operator, ts)];
      Release(conn.value);
      return Returned(true);
    }

    method UpdateConfig(k: RowKey, value: string, operator: string, draft: bool, ts: string) returns (r: Reply<bool>)
      modifies this
      ensures r.Blocked? <==> old(idle) == []
      ensures r.Blocked? ==> View() == old(View()) && idle == old(idle)
      ensures r.Returned? ==>
                (View(), r.value) == Updated(old(View()), k, value, operator, draft, ts)
                && idle == old(idle)[1..] + [old(idle)[0]]
      ensures namespaces == old(namespaces)
    {
      var conn := Acquire();
      if conn.Blocked? {
        return Blocked;
      }
      if k !in configs {
        Release(conn.value);
        return Returned(false);
      }
      var oldVersion, oldValue := configs[k].version, configs[k].value;
      var newVersion := oldVersion + 1;
      var status := if draft then "draft" else "live";
      configs := configs[k := configs[k].(value := value, version := newVersion, status := status, updatedAt := ts)];
      versions := versions + [VersionEntry(k, newVersion, value, "update", operator, ts)];
      logs := logs + [LogEntry(k, newVersion, oldValue, value, "update", operator, ts)];
      Release(conn.value);
      return Returned(true);
    }

    method DeleteConfig(k: RowKey, operator: string, draft: bool, ts: string) returns (r: Reply<bool>)
      modifies this
      ensures r == if old(idle) == [] then Blocked else Returned(true)
      ensures r.Blocked? ==> View() == old(View()) && idle == old(idle)
      ensures r.Returned? ==>
                View() == Deleted(old(View()), k, operator, draft, ts) && idle == old(idle)[1..] + [old(idle)[0]]
      ensures namespaces == old(namespaces)
    {
      var conn := Acquire();
      if conn.Blocked? {
        return Blocked;
      }
      if !draft || (k in configs && configs[k].status == "draft") {
        configs := configs - {k};
      }
      logs := logs + [LogEntry(k, 0, "", "", "delete", operator, ts)];
      Release(conn.value);
      return Returned(true);
    }

    /**
     * `fails` is an exception inside the try block; a statement's own failure is only a flag, and
     * then the id reported back is whatever the connection inserted last. The caller's release is
     * overwritten only on success.
     */
    method PublishRelease(
      ns: string, note: string, operator: string, ts: string, marked: bool, fails: bool, lastInsertId: int,
      caller: ConfigTables.Release)
      returns (r: Reply<bool>, out: ConfigTables.Release)
      modifies this
      ensures r == if old(idle) == [] then Blocked else Returned(!fails)
      ensures View() == if r == Returned(true)
                        then MysqlPublished(old(View()), ns, note, operator, ts, marked, ns in namespaces)
                        else old(View())
      ensures r != Returned(true) ==> out == caller
      ensures r == Returned(true) ==>
                && out.id == (if ns in namespaces then |old(releases)| + 1 else lastInsertId)
                && out == ConfigTables.Release(out.id, ns, NextVersion(old(releases), ns), note, "full", "active",
                                               None, None, operator, ts)
      ensures r == Returned(true) && ns in namespaces ==> releases == old(releases) + [out]
      ensures namespaces == old(namespaces)
      ensures idle == if old(idle) == [] then [] else old(idle)[1..] + [old(idle)[0]]
    {
      var conn := Acquire();
      if conn.Blocked? {
        return Blocked, caller;
      }
      var before := configs;
      if marked {
        configs := AllLive(configs, ns);
      }
      if fails {
        configs := before;
        Release(conn.value);
        return Returned(false), caller;
      }
      var release := ConfigTables.Release(
        lastInsertId, ns, NextVersion(releases, ns), note, "full", "active", None, None, operator, ts);
      if ns in namespaces {
        release := release.(id := |releases| + 1);
        releases := releases + [release];
      }
      Release(conn.value);
      return Returned(true), release;
    }

    // The explicit transaction calls take a connection and never return it.

    method BeginTransaction() returns (r: Reply<bool>)
      modifies this`idle
      ensures r == if old(idle) == [] then Blocked else Returned(true)
      ensures idle == if old(idle) == [] then [] else old(idle)[1..]
    {
      var conn := Acquire();
      return if conn.Blocked? then Blocked else Returned(true);
    }

    method CommitTransaction() returns (r: Reply<bool>)
      modifies this`idle
      ensures r == if old(idle) == [] then Blocked else Returned(true)
      ensures idle == if old(idle) == [] then [] else old(idle)[1..]
    {
      var conn := Acquire();
      return if conn.Blocked? then Blocked else Returned(true);
    }

    /**
     * The engine's grayscale publish: begin and commit work on connections of their own, so the
     * publish stands by itself and the stored release says "full" while the caller's copy says
     * "grayscale". A failed publish is ignored: the call returns true all the same. With fewer than
     * two idle connections it takes what there is and waits. `whitelist` is the JSON text of a whitelist
     * that is not empty.
     */
    method PublishGrayscale(
      ns: string, note: string, operator: string, ts: string, percentage: int, marked: bool, fails: bool,
      lastInsertId: int, whitelist: Option<string>, caller: ConfigTables.Release)
      returns (r: Reply<bool>, out: ConfigTables.Release)
      modifies this
      ensures r == if |old(idle)| < 2 then Blocked else Returned(true)
      ensures View() == if r.Blocked? || fails then old(View())
                        else MysqlPublished(old(View()), ns, note, operator, ts, marked, ns in namespaces)
      ensures r.Returned? ==>
                var published := if fails then caller else ConfigTables.Release(
                    if ns in namespaces then |old(releases)| + 1 else lastInsertId,
                    ns, NextVersion(old(releases), ns), note, "full", "active", None, None, operator, ts);
                out == published.(releaseType := "grayscale", grayscale := Some(percentage),
                                  whitelist := if whitelist.Some? then whitelist else published.whitelist)
      ensures r.Returned? && !fails && ns in namespaces ==>
                && releases != [] && releases[|releases| - 1].releaseType == "full"
                && out.id == releases[|releases| - 1].id
      ensures |idle| == if |old(idle)| < 2 then 0 else |old(idle)| - 2
      ensures namespaces == old(namespaces)
    {
      out := caller;
      r := BeginTransaction();
      if r.Blocked? {
        return;
      }
      r, out := PublishRelease(ns, note, operator, ts, marked, fails, lastInsertId, caller);
      if r.Blocked? {
        return;
      }
      out := out.(releaseType := "grayscale", grayscale := Some(percentage));
      if whitelist.Some? {
        out := out.(whitelist := whitelist);
      }
      r := CommitTransaction();
    }
  }
}
