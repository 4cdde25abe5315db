/**
 * The SQLite store. Each method is proved against the table functions of module ConfigTables and is
 * one region under the store's mutex, except a rollback of a config, which is two, and the three
 * explicit transaction calls, which take no lock: module TransactionWindows says what follows.
 */
module SqliteStore {
  import opened Seqs
  import opened ConfigTables

  /** Where `publishRelease` can fail once its transaction is open. */
  datatype PublishPoint = ReadDrafts | MarkLive | ReadVersion | InsertRelease | Commit

  /** A call either returns a flag or lets an exception through. */
  datatype Outcome = Done(ok: bool) | Thrown

  class SqliteConfigStore {
    var configs: map<RowKey, Row>
    var versions: seq<Version>
    var logs: seq<ChangeLog>
    var releases: seq<Release>
    /** The tables at the start of the open transaction, if one is open. */
    var open: Option<Tables>

    ghost function View(): Tables
      reads this
    {
      Tables(configs, versions, logs, releases)
    }

    constructor ()
      ensures View() == EMPTY && open == None
    {
      configs, versions, logs, releases, open := map[], [], [], [], None;
    }

    method CreateConfig(k: RowKey, value: string, operator: string, ts: string) returns (ok: bool)
      modifies this`configs, this`versions, this`logs
      ensures (View(), ok) == Created(old(View()), k, value, operator, ts)
    {
      if k in configs {
        return false;
      }
      configs := configs[k := Row(value, 1, "draft", ts, ts)];
      versions := versions + [VersionEntry(k, 1, value, "create", operator, ts)];
      logs := logs + [LogEntry(k, 1, "", value, "create", operator, ts)];
      return true;
    }

    method UpdateConfig(k: RowKey, value: string, operator: string, draft: bool, ts: string) returns (ok: bool)
      modifies this`configs, this`versions, this`logs
      ensures (View(), ok) == Updated(old(View()), k, value, operator, draft, ts)
    {
      if k !in configs {
        return false;
      }
      var row := configs[k];
      var oldValue, newVersion := row.value, row.version + 1;
      row := row.(value := value, version := newVersion);
      row := row.(status := if draft then "draft" else "live", updatedAt := ts);
      configs := configs[k := row];
      versions := versions + [VersionEntry(k, newVersion, value, "update", operator, ts)];
      logs := logs + [LogEntry(k, newVersion, oldValue, value, "update", operator, ts)];
      return true;
    }

    method DeleteConfig(k: RowKey, operator: string, draft: bool, ts: string) returns (ok: bool)
      modifies this`configs, this`logs
      ensures ok && View() == Deleted(old(View()), k, operator, draft, ts)
    {
      if draft {
        if k in configs && configs[k].status == "draft" {
          configs := configs - {k};
        }
      } else {
        configs := configs - {k};
      }
      logs := logs + [LogEntry(k, 0, "", "", "delete", operator, ts)];
      return true;
    }

    method GetConfig(k: RowKey, includeDraft: bool) returns (row: Option<Row>)
      ensures row == Lookup(View(), k, includeDraft)
    {
      if k !in configs {
        return None;
      }
      if !includeDraft && configs[k].status == "draft" {
        return None;
      }
      return Some(configs[k]);
    }

    method ListConfigs(ns: string, includeDraft: bool) returns (rows: map<RowKey, Row>)
      ensures rows == Listing(View(), ns, includeDraft)
    {
      rows := map k | k in configs && k.ns == ns :: configs[k];
      if !includeDraft {
        rows := map k | k in rows && rows[k].status != "draft" :: rows[k];
      }
    }

    /** The query names no order, so which of several matches comes first is unspecified. */
    method GetConfigVersion(k: RowKey, n: int) returns (found: Option<Version>)
      ensures found.None? <==> !exists v :: IsVersionOf(View(), k, n, v)
      ensures found.Some? ==> IsVersionOf(View(), k, n, found.value)
    {
      var id := MakeConfigId(k);
      found := None;
      for i := 0 to |versions|
        invariant found.Some? ==> IsVersionOf(View(), k, n, found.value)
        invariant found.None? ==> forall j :: 0 <= j < i ==> !(versions[j].configId == id && versions[j].version == n)
      {
        if versions[i].configId == id && versions[i].version == n {
          var better := *;
          if found.None? || better {
            found := Some(versions[i]);
          }
        }
      }
      if found.None? {
        forall v ensures !IsVersionOf(View(), k, n, v) {}
      } else {
        assert IsVersionOf(View(), k, n, found.value);
      }
    }

    /** Two locked regions; StoreRuns.RollbackAppendsTarget lets other operations run between them. */
    method RollbackConfig(k: RowKey, n: int, operator: string, ts: string) returns (ok: bool)
      modifies this`configs, this`versions, this`logs
      ensures !ok ==> View() == old(View())
      ensures ok <==> old(k in configs && exists v :: IsVersionOf(View(), k, n, v))
      ensures ok ==> exists v :: old(IsVersionOf(View(), k, n, v))
                                 && View() == Updated(old(View()), k, v.value, operator, true, ts).0
    {
      var target := GetConfigVersion(k, n);
      if target.None? {
        return false;
      }
      ok := UpdateConfig(k, target.value.value, operator, true, ts);
    }

    method CreateRelease(r: Release) returns (stored: Release)
      modifies this`releases
      ensures View() == ReleaseCreated(old(View()), r)
      ensures stored == r.(id := NextId(old(releases)))
    {
      stored := r.(id := |releases| + 1);
      releases := releases + [stored];
    }

    method GetRelease(id: int) returns (found: Option<Release>)
      ensures found.None? ==> forall r :: r in releases ==> r.id != id
      ensures found.Some? ==> found.value in releases && found.value.id == id
    {
      for i := 0 to |releases|
        invariant forall j :: 0 <= j < i ==> releases[j].id != id
      {
        if releases[i].id == id {
          return Some(releases[i]);
        }
      }
      return None;
    }

    method RetireRelease(id: int)
      modifies this`releases
      ensures View() == Retired(old(View()), id)
    {
      var done := [];
      for i := 0 to |releases|
        invariant done == Retired(View(), id).releases[..i]
      {
        done := done + [if releases[i].id == id then releases[i].(status := "retired") else releases[i]];
      }
      releases := done;
    }

    // Transactions

    /** SQLite refuses to begin a transaction inside another. */
    method BeginTransaction() returns (r: Outcome)
      modifies this`open
      ensures old(open).Some? ==> r == Thrown && open == old(open)
      ensures old(open).None? ==> r == Done(true) && open == Some(View())
    {
      if open.Some? {
        return Thrown;
      }
      open := Some(Tables(configs, versions, logs, releases));
      return Done(true);
    }

    /** Without an open transaction there is nothing to end, and SQLite says so. */
    method CommitTransaction() returns (r: Outcome)
      modifies this`open
      ensures open == None && r == if old(open).Some? then Done(true) else Thrown
    {
      if open.None? {
        return Thrown;
      }
      open := None;
      return Done(true);
    }

    method RollbackTransaction() returns (r: Outcome)
      modifies this
      ensures open == None && r == if old(open).Some? then Done(true) else Thrown
      ensures View() == if old(open).Some? then old(open).value else old(View())
    {
      match open {
        case None => return Thrown;
        case Some(t) =>
          configs, versions, logs, releases := t.configs, t.versions, t.logs, t.releases;
          open := None;
          return Done(true);
      }
    }

    /**
     * `fault` is the point inside the transaction at which the database fails, if any. All-or-nothing:
     * a fault leaves every table as it was; a transaction already open lets the exception through.
     */
    method PublishRelease(ns: string, note: string, operator: string, ts: string, fault: Option<PublishPoint>)
      returns (r: Outcome, out: Option<Release>)
      modifies this
      ensures open == old(open)
      ensures old(open).Some? ==> r == Thrown && View() == old(View()) && out == None
      ensures old(open).None? && fault.Some? ==> r == Done(false) && View() == old(View())
      ensures old(open).None? && fault.None? ==>
                && r == Done(true)
                && View() == Published(old(View()), ns, note, operator, ts)
                && out == Some(releases[|releases| - 1])
                && releases == old(releases)
                               + [Release(|old(releases)| + 1, ns, MaxVersion(old(releases), ns) + 1, note,
                                          "full", "active", None, None, operator, ts)]
    {
      out := None;
      r := BeginTransaction();
      if r == Thrown {
        return;
      }
      if fault != Some(ReadDrafts) {
        if fault != Some(MarkLive) {
          configs := AllLive(configs, ns);
          if fault != Some(ReadVersion) {
            var maxVersion := MaxVersion(releases, ns);
            if fault != Some(InsertRelease) {
              var release := Release(
                |releases| + 1, ns, maxVersion + 1, note, "full", "active", None, None, operator, ts);
              releases := releases + [release];
              out := Some(release);
              if fault != Some(Commit) {
                assert fault.Some? ==>
                  match fault.value case ReadDrafts => false case MarkLive => false case ReadVersion => false
                                    case InsertRelease => false case Commit => false;
                r := CommitTransaction();
                return;
              }
            }
          }
        }
      }
      var _ := RollbackTransaction();
      return Done(false), out;
    }
  }
}
