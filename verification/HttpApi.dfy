/** Requests end to end: routing, then the handler's calls on the SQLite store. */
module HttpApi {
  import opened Seqs
  import opened ConfigTables
  import opened Routing
  import PublishEngine
  import EngineRuns
  import StoreRuns

  /** `body` is the decoded value or release note. */
  datatype Request = Request(verb: Method, target: string, body: string)

  datatype Response =
    | Success
    | ConfigBody(value: string, version: int)
    | ReleaseBody(id: int, version: int)
    | Error(code: int)
    | Elsewhere

  const SYSTEM := "system"

  /** What a get answers. */
  function ReplyOf(t: Tables, k: RowKey): Response {
    match Lookup(t, k, false) case Some(row) => ConfigBody(row.value, row.version) case None => Error(404)
  }

  /**
   * The config and publish handlers; the other routes do not touch these tables. `fails` is a database
   * failure inside the transaction of a publish.
   */
  function Handle(t: Tables, r: Request, ts: string, fails: bool): (Tables, Response) {
    match Dispatch(r.target, r.verb)
    case GetConfig(ns, key) =>
      (t, ReplyOf(t, RowKey(ns, key)))
    case SetConfig(ns, key) => (PublishEngine.DraftAdded(t, RowKey(ns, key), r.body, SYSTEM, ts).0, Success)
    case DeleteConfig(ns, key) => (Deleted(t, RowKey(ns, key), SYSTEM, true, ts), Success)
    case Publish(ns) =>
      if fails then (t, Error(500)) else
      var release := NewRelease(t, ns, r.body, SYSTEM, ts);
      (Published(t, ns, r.body, SYSTEM, ts), ReleaseBody(release.id, release.version))
    case NotFound => (t, Error(404))
    case _ => (t, Elsewhere)
  }

  function GetKey(k: RowKey): Request { Request(Get, KeysUrl(k.ns, k.key), "") }
  function PutKey(k: RowKey, value: string): Request { Request(Put, KeysUrl(k.ns, k.key), value) }
  function DeleteKey(k: RowKey): Request { Request(Delete, KeysUrl(k.ns, k.key), "") }
  function PostPublish(ns: string, note: string): Request { Request(Post, PublishUrl(ns), note) }

  /** The id survives both the keys and the publish URL. */
  ghost predicate Routable(ns: string) {
    "keys" !in Segments(ns) && !SomeStartsWith(Segments(ns)[1..], "publish")
  }

  /** Requests on a key reach the store with namespace, key and value unchanged. */
  lemma KeyRequests(t: Tables, k: RowKey, value: string, ts: string, fails: bool)
    requires "keys" !in Segments(k.ns)
    ensures Handle(t, PutKey(k, value), ts, fails) == (PublishEngine.DraftAdded(t, k, value, "system", ts).0, Success)
    ensures Handle(t, DeleteKey(k), ts, fails) == (Deleted(t, k, "system", true, ts), Success)
    ensures Handle(t, GetKey(k), ts, fails)
            == (t, if k in t.configs && t.configs[k].status != "draft"
                   then ConfigBody(t.configs[k].value, t.configs[k].version) else Error(404))
  {
    KeysUrlRoundTrip(k.ns, k.key);
  }

  /** Other requests touch no table; those that match no route are told so. */
  lemma OtherRequests(t: Tables, r: Request, ts: string, fails: bool)
    requires var route := Dispatch(r.target, r.verb); !route.SetConfig? && !route.DeleteConfig? && !route.Publish?
    ensures Handle(t, r, ts, fails).0 == t
    ensures Dispatch(r.target, r.verb) == NotFound ==> Handle(t, r, ts, fails).1 == Error(404)
  {
  }

  /** A publish request publishes the namespace, or fails without effect. */
  lemma PublishRequest(t: Tables, ns: string, note: string, ts: string, fails: bool)
    requires Routable(ns)
    ensures Handle(t, PostPublish(ns, note), ts, fails)
            == if fails then (t, Error(500))
               else (Published(t, ns, note, "system", ts),
                     ReleaseBody(|t.releases| + 1, MaxVersion(t.releases, ns) + 1))
  {
    PublishUrlRoundTrip(ns, Post);
  }

  /**
   * Put, publish, get: the value put comes back exactly when the key had no unpublished draft, or one
   * with that very value. The version is 1 for a new key, one more for a published one, and that of the
   * draft for a drafted one.
   */
  lemma PutPublishGet(t: Tables, k: RowKey, value: string, note: string, ts: string)
    requires Routable(k.ns) && StoreRuns.StatusesKnown(t)
    ensures var t1 := Handle(t, PutKey(k, value), ts, false).0;
            var t2 := Handle(t1, PostPublish(k.ns, note), ts, false).0;
            var reply := Handle(t2, GetKey(k), ts, false).1;
            && reply.ConfigBody?
            && (reply.value == value <==> !EngineRuns.IsDraft(t, k) || t.configs[k].value == value)
            && reply.version == (if k !in t.configs then 1
                                 else t.configs[k].version + if EngineRuns.IsDraft(t, k) then 0 else 1)
  {
    var t1 := PublishEngine.DraftAdded(t, k, value, SYSTEM, ts).0;
    var t2 := Published(t1, k.ns, note, SYSTEM, ts);
    KeyRequests(t, k, value, ts, false);
    PublishRequest(t1, k.ns, note, ts, false);
    KeyRequests(t2, k, value, ts, false);
  }

  /** A second put before a publish reports success and changes none of the tables. */
  lemma SecondPutIsLost(t: Tables, k: RowKey, first: string, second: string, ts: string, ts': string)
    requires "keys" !in Segments(k.ns) && StoreRuns.StatusesKnown(t)
    ensures var t1 := Handle(t, PutKey(k, first), ts, false).0;
            Handle(t1, PutKey(k, second), ts', false) == (t1, Success)
  {
    KeyRequests(t, k, first, ts, false);
    KeyRequests(PublishEngine.DraftAdded(t, k, first, SYSTEM, ts).0, k, second, ts', false);
  }

  /** On the tables: a draft deletion removes exactly a draft. */
  lemma DraftDeletion(t: Tables, k: RowKey, note: string, ts: string)
    requires StoreRuns.StatusesKnown(t)
    ensures var t1 := Deleted(t, k, SYSTEM, true, ts);
            && t1.configs == (if EngineRuns.IsDraft(t, k) then t.configs - {k} else t.configs)
            && (ReplyOf(Published(t1, k.ns, note, SYSTEM, ts), k) == Error(404)
                <==> k !in t.configs || EngineRuns.IsDraft(t, k))
  {
  }

  /** On the tables: an edited key is a draft, and its deletion takes the published value along. */
  lemma EditThenDeletion(t: Tables, k: RowKey, value: string, ts: string)
    requires StoreRuns.StatusesKnown(t)
    ensures Deleted(PublishEngine.DraftAdded(t, k, value, SYSTEM, ts).0, k, SYSTEM, true, ts).configs == t.configs - {k}
  {
    var edited := PublishEngine.DraftAdded(t, k, value, SYSTEM, ts).0;
    assert EngineRuns.IsDraft(edited, k) && edited.configs - {k} == t.configs - {k};
  }

  /**
   * A delete always reports success. The key is gone, at once and after the next publish, exactly when
   * it was absent or a draft; so a published key stays.
   */
  lemma DeleteRemovesIffDraft(t: Tables, k: RowKey, note: string, ts: string)
    requires Routable(k.ns) && StoreRuns.StatusesKnown(t)
    ensures var (t1, reply) := Handle(t, DeleteKey(k), ts, false);
            && reply == Success
            && t1.configs == (if EngineRuns.IsDraft(t, k) then t.configs - {k} else t.configs)
            && (Handle(Handle(t1, PostPublish(k.ns, note), ts, false).0, GetKey(k), ts, false).1 == Error(404)
                <==> k !in t.configs || EngineRuns.IsDraft(t, k))
  {
    var t1 := Deleted(t, k, SYSTEM, true, ts);
    KeyRequests(t, k, "", ts, false);
    PublishRequest(t1, k.ns, note, ts, false);
    KeyRequests(Published(t1, k.ns, note, SYSTEM, ts), k, "", ts, false);
    DraftDeletion(t, k, note, ts);
  }

  /** A put followed by a delete always removes the key, whatever was published. */
  lemma DroppedEditLosesKey(t: Tables, k: RowKey, value: string, ts: string)
    requires "keys" !in Segments(k.ns) && StoreRuns.StatusesKnown(t)
    ensures var edited := Handle(t, PutKey(k, value), ts, false).0;
            Handle(edited, DeleteKey(k), ts, false).0.configs == t.configs - {k}
  {
    var edited := PublishEngine.DraftAdded(t, k, value, SYSTEM, ts).0;
    KeyRequests(t, k, value, ts, false);
    KeyRequests(edited, k, value, ts, false);
    EditThenDeletion(t, k, value, ts);
  }
}
