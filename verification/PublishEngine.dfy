/** The publish engine over the SQLite store, and what every sequential run of it keeps. */
module PublishEngine {
  import opened Seqs
  import opened ConfigTables
  import opened SqliteStore
  import Decimal

  /** Adding a draft reads the live row first, then updates it or creates a new one. */
  function DraftAdded(t: Tables, k: RowKey, value: string, operator: string, ts: string): (Tables, bool) {
    if Lookup(t, k, false).Some? then Updated(t, k, value, operator, true, ts) else Created(t, k, value, operator, ts)
  }

  function RolloutRelease(ns: string, operator: string, id: int): Release {
    Release(0, ns, 0, "Full rollout of release " + Decimal.PrintInt(id), "full", "active", None, None, operator, "")
  }

  predicate CanRollOut(t: Tables, id: int) {
    exists i :: 0 <= i < |t.releases| && t.releases[i].id == id && t.releases[i].status == "active"
  }

  function RolledOut(t: Tables, ns: string, operator: string, id: int): Tables {
    ReleaseCreated(Retired(t, id), RolloutRelease(ns, operator, id))
  }

  predicate UniqueIds(t: Tables) {
    forall i :: 0 <= i < |t.releases| ==> t.releases[i].id == i + 1
  }

  class PublishEngine {
    const store: SqliteConfigStore

    constructor (store: SqliteConfigStore)
      ensures this.store == store
    {
      this.store := store;
    }

    method GetDraftChanges(ns: string) returns (drafts: map<RowKey, Row>)
      ensures forall k :: k in drafts <==> k in store.configs && k.ns == ns && store.configs[k].status == "draft"
      ensures forall k :: k in drafts ==> drafts[k] == store.configs[k]
    {
      var configs := store.ListConfigs(ns, true);
      drafts := map k | k in configs && configs[k].status == "draft" :: configs[k];
    }

    method AddDraftChange(k: RowKey, value: string, operator: string, ts: string) returns (ok: bool)
      modifies store
      ensures (store.View(), ok) == DraftAdded(old(store.View()), k, value, operator, ts)
      ensures store.open == old(store.open)
    {
      var existing := store.GetConfig(k, false);
      if existing.Some? {
        ok := store.UpdateConfig(k, value, operator, true, ts);
      } else {
        ok := store.CreateConfig(k, value, operator, ts);
      }
    }

    method RemoveDraftChange(k: RowKey, operator: string, ts: string) returns (ok: bool)
      modifies store
      ensures ok && store.View() == Deleted(old(store.View()), k, operator, true, ts)
      ensures store.open == old(store.open)
    {
      ok := store.DeleteConfig(k, operator, true, ts);
    }

    /**
     * The outer transaction makes the inner one throw, so on SQLite a grayscale publish always
     * fails and changes nothing; with a transaction already open its own begin throws.
     */
    method PublishGrayscale(ns: string, note: string, operator: string, ts: string, fault: Option<PublishPoint>)
      returns (r: Outcome)
      modifies store
      ensures store.View() == old(store.View()) && store.open == old(store.open)
      ensures r == if old(store.open).Some? then Thrown else Done(false)
    {
      r := store.BeginTransaction();
      if r == Thrown {
        return;
      }
      var inner, _ := store.PublishRelease(ns, note, operator, ts, fault);
      if inner != Thrown {
        assert false;  // the commit on the normal path is never reached
      }
      var _ := store.RollbackTransaction();
      return Done(false);
    }

    /** Three locked regions: read, retire, create. */
    method FullRollout(ns: string, operator: string, id: int) returns (ok: bool)
      requires UniqueIds(store.View())
      modifies store
      ensures ok <==> CanRollOut(old(store.View()), id)
      ensures store.View() == if ok then RolledOut(old(store.View()), ns, operator, id) else old(store.View())
      ensures store.open == old(store.open)
      ensures ok <==> old(exists i :: 0 <= i < |store.releases| && store.releases[i].id == id
                                      && store.releases[i].status == "active")
      ensures ok ==>
                var n := |old(store.releases)|;
                && |store.releases| == n + 1
                && store.releases[n]
                   == Release(n + 1, ns, 0, "Full rollout of release " + Decimal.PrintInt(id), "full", "active",
                              None, None, operator, "")
                && forall i :: 0 <= i < n ==>
                     store.releases[i] == if i + 1 == id then old(store.releases)[i].(status := "retired")
                                          else old(store.releases)[i]
    {
      var release := store.GetRelease(id);
      if release.None? || release.value.status != "active" {
        return false;
      }
      store.RetireRelease(id);
      var _ := store.CreateRelease(RolloutRelease(ns, operator, id));
      return true;
    }
  }
}
