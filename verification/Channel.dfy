/** The notification channel: its tables, and the class whose methods change them in place. */
module Channel {
  import opened Seqs

  datatype Notification = Notification(namespaceId: string, releaseId: int, changedKeys: seq<string>, timestamp: int)

  /** A stored callback is named by a number, and so is a wait call. */
  type CallbackId = nat

  /** The record that callback or wait call number `to` was given `notification`. */
  datatype Delivery = Delivery(to: nat, notification: Notification)

  /** The channel's fields as a value. `calls` is the trace of callback invocations. */
  datatype Fields = Fields(
    subscribers: map<string, seq<CallbackId>>,
    history: map<string, seq<Notification>>,
    pending: seq<Notification>,
    calls: seq<Delivery>)

  const EMPTY := Fields(map[], map[], [], [])

  function InNamespace(ns: string): Notification -> bool { (n: Notification) => n.namespaceId == ns }
  function To(id: nat): Delivery -> bool { (d: Delivery) => d.to == id }
  function NewerThan(last: int): Notification -> bool { (n: Notification) => n.releaseId > last }

  function HistoryOf(f: Fields, ns: string): seq<Notification> {
    if ns in f.history then f.history[ns] else []
  }

  function SubscribersOf(f: Fields, ns: string): seq<CallbackId> {
    if ns in f.subscribers then f.subscribers[ns] else []
  }

  function PendingFor(f: Fields, ns: string): seq<Notification> { Filter(InNamespace(ns), f.pending) }

  function Notifications(deliveries: seq<Delivery>): (r: seq<Notification>)
    ensures |r| == |deliveries|
  {
    seq(|deliveries|, i requires 0 <= i < |deliveries| => deliveries[i].notification)
  }

  /** What one callback has been called with so far, in order. */
  function Received(f: Fields, cb: CallbackId): seq<Notification> {
    Notifications(Filter(To(cb), f.calls))
  }

  function CallAll(cbs: seq<CallbackId>, n: Notification): (r: seq<Delivery>)
    ensures |r| == |cbs|
    ensures forall i :: 0 <= i < |cbs| ==> r[i] == Delivery(cbs[i], n)
  {
    seq(|cbs|, i requires 0 <= i < |cbs| => Delivery(cbs[i], n))
  }

  lemma CallAllSnoc(cbs: seq<CallbackId>, i: nat, n: Notification)
    requires i < |cbs|
    ensures CallAll(cbs[..i + 1], n) == CallAll(cbs[..i], n) + [Delivery(cbs[i], n)]
  {
  }

  // What each locked region does to the fields.

  function Subscribed(f: Fields, ns: string, cb: CallbackId): Fields {
    f.(subscribers := f.subscribers[ns := SubscribersOf(f, ns) + [cb]])
  }

  function Unsubscribed(f: Fields, ns: string): Fields {
    f.(subscribers := f.subscribers - {ns})
  }

  /** A publish throws when the callback at position `throwsAt` is there to throw. */
  predicate Throws(f: Fields, n: Notification, throwsAt: Option<nat>) {
    throwsAt.Some? && throwsAt.value < |SubscribersOf(f, n.namespaceId)|
  }

  /** The callbacks a publish reaches: all of them, or those up to the one that throws. */
  function Called(f: Fields, n: Notification, throwsAt: Option<nat>): seq<CallbackId> {
    var cbs := SubscribersOf(f, n.namespaceId);
    if Throws(f, n, throwsAt) then cbs[..throwsAt.value + 1] else cbs
  }

  /** The history grows before the callbacks run; a throw leaves the pending list as it was. */
  function Published(f: Fields, n: Notification, throwsAt: Option<nat>): Fields {
    Fields(
      f.subscribers,
      f.history[n.namespaceId := HistoryOf(f, n.namespaceId) + [n]],
      if Throws(f, n, throwsAt) then f.pending else f.pending + [n],
      f.calls + CallAll(Called(f, n, throwsAt), n))
  }

  /** The first pending notification of a namespace, and the pending list without it. */
  function Take(pending: seq<Notification>, ns: string): (Option<Notification>, seq<Notification>) {
    if pending == [] then (None, [])
    else if pending[0].namespaceId == ns then (Some(pending[0]), pending[1..])
    else var (n, rest) := Take(pending[1..], ns); (n, [pending[0]] + rest)
  }

  function Missed(f: Fields, ns: string, last: int): seq<Notification> {
    Filter(NewerThan(last), HistoryOf(f, ns))
  }

  /** A scan that misses changes nothing; one that hits returns an entry of the namespace. */
  lemma {:induction false} TakeHits(pending: seq<Notification>, ns: string)
    ensures var (found, rest) := Take(pending, ns);
            if found.None? then rest == pending && (forall n :: n in pending ==> n.namespaceId != ns)
            else found.value.namespaceId == ns && found.value in pending
  {
    if pending != [] {
      TakeHits(pending[1..], ns);
      assert pending == [pending[0]] + pending[1..];
    }
  }

  /** In the list of any one namespace, a hit was the first entry or, for another namespace, not there at all. */
  lemma {:induction false} TakeFiltered(pending: seq<Notification>, ns: string, other: string)
    requires Take(pending, ns).0.Some?
    ensures var (found, rest) := Take(pending, ns);
            Filter(InNamespace(other), pending)
            == (if other == ns then [found.value] else []) + Filter(InNamespace(other), rest)
  {
    var head, tail := pending[0], pending[1..];
    assert pending == [head] + tail;
    FilterCons(InNamespace(other), head, tail);
    if head.namespaceId != ns {
      TakeFiltered(tail, ns, other);
      FilterCons(InNamespace(other), head, Take(tail, ns).1);
    }
  }

  /** Taking removes the oldest pending notification of the namespace and no other. */
  lemma TakeIsOldest(pending: seq<Notification>, ns: string)
    ensures Take(pending, ns).0.None? <==> Filter(InNamespace(ns), pending) == []
    ensures Take(pending, ns).0.None? ==> Take(pending, ns).1 == pending
    ensures Take(pending, ns).0.Some? ==>
              Filter(InNamespace(ns), pending)
              == [Take(pending, ns).0.value] + Filter(InNamespace(ns), Take(pending, ns).1)
    ensures forall other :: other != ns ==>
              Filter(InNamespace(other), Take(pending, ns).1) == Filter(InNamespace(other), pending)
  {
    TakeHits(pending, ns);
    if Take(pending, ns).0.None? {
      FilterNone(InNamespace(ns), pending);
    } else {
      forall other ensures Filter(InNamespace(other), pending)
                           == (if other == ns then [Take(pending, ns).0.value] else [])
                              + Filter(InNamespace(other), Take(pending, ns).1)
      {
        TakeFiltered(pending, ns, other);
      }
    }
  }

  /** Scanning past a prefix with no entry of the namespace finds what the whole list would. */
  lemma {:induction false} TakeSkips(pending: seq<Notification>, ns: string, i: nat)
    requires i < |pending| && pending[i].namespaceId == ns
    requires forall j :: 0 <= j < i ==> pending[j].namespaceId != ns
    ensures Take(pending, ns) == (Some(pending[i]), pending[..i] + pending[i + 1..])
  {
    if i == 0 {
      assert pending[..0] + pending[1..] == pending[1..];
    } else {
      TakeSkips(pending[1..], ns, i - 1);
      assert [pending[0]] + (pending[1..][..i - 1] + pending[1..][i..]) == pending[..i] + pending[i + 1..];
    }
  }

  class NotificationChannel {
    var subscribers: map<string, seq<CallbackId>>
    var history: map<string, seq<Notification>>
    var pending: seq<Notification>
    var calls: seq<Delivery>

    ghost function View(): Fields
      reads this
    {
      Fields(subscribers, history, pending, calls)
    }

    constructor ()
      ensures View() == EMPTY
    {
      subscribers, history, pending, calls := map[], map[], [], [];
    }

    method Subscribe(ns: string, cb: CallbackId)
      modifies this`subscribers
      ensures View() == Subscribed(old(View()), ns, cb)
    {
      if ns !in subscribers {
        subscribers := subscribers[ns := []];
      }
      subscribers := subscribers[ns := subscribers[ns] + [cb]];
    }

    method Unsubscribe(ns: string)
      modifies this`subscribers
      ensures View() == Unsubscribed(old(View()), ns)
    {
      subscribers := subscribers - {ns};
    }

    method Publish(n: Notification, throwsAt: Option<nat>) returns (threw: bool)
      modifies this`history, this`pending, this`calls
      ensures threw <==> Throws(old(View()), n, throwsAt)
      ensures View() == Published(old(View()), n, throwsAt)
    {
      if n.namespaceId !in history {
        history := history[n.namespaceId := []];
      }
      history := history[n.namespaceId := history[n.namespaceId] + [n]];
      if n.namespaceId in subscribers {
        var cbs := subscribers[n.namespaceId];
        for i := 0 to |cbs|
          modifies this`calls
          invariant calls == old(calls) + CallAll(cbs[..i], n)
          invariant throwsAt.Some? ==> i <= throwsAt.value
        {
          calls := calls + [Delivery(cbs[i], n)];
          CallAllSnoc(cbs, i, n);
          if throwsAt == Some(i) {
            return true;
          }
        }
        assert cbs[..|cbs|] == cbs;
      }
      pending := pending + [n];
      return false;
    }

    /** The scan-and-erase loop, run on entry to a wait and as the predicate of the condition variable. */
    method TakePending(ns: string) returns (taken: Option<Notification>)
      modifies this`pending
      ensures (taken, pending) == Take(old(pending), ns)
    {
      var i := 0;
      while i < |pending|
        invariant i <= |pending|
        invariant pending == old(pending)
        invariant forall j :: 0 <= j < i ==> pending[j].namespaceId != ns
      {
        if pending[i].namespaceId == ns {
          TakeSkips(pending, ns, i);
          taken := Some(pending[i]);
          pending := pending[..i] + pending[i + 1..];
          return;
        }
        i := i + 1;
      }
      FilterNone(InNamespace(ns), pending);
      TakeIsOldest(pending, ns);
      taken := None;
    }

    method GetMissedNotifications(ns: string, last: int) returns (missed: seq<Notification>)
      ensures missed == Missed(View(), ns, last)
    {
      missed := [];
      if ns in history {
        var all := history[ns];
        for i := 0 to |all|
          invariant missed == Filter(NewerThan(last), all[..i])
        {
          if all[i].releaseId > last {
            missed := missed + [all[i]];
          }
          FilterSnoc(NewerThan(last), all[..i], all[i]);
          assert all[..i + 1] == all[..i] + [all[i]];
        }
        assert all[..|all|] == all;
      }
    }
  }

  lemma SeparatedIsSuffix(h: seq<Notification>, last: int, k: nat)
    requires k <= |h|
    requires forall i :: 0 <= i < k ==> h[i].releaseId <= last
    requires forall i :: k <= i < |h| ==> h[i].releaseId > last
    ensures Filter(NewerThan(last), h) == h[k..]
  {
    assert h == h[..k] + h[k..];
    FilterConcat(NewerThan(last), h[..k], h[k..]);
    FilterNone(NewerThan(last), h[..k]);
    FilterAll(NewerThan(last), h[k..]);
  }

  lemma SuffixIsSeparated(h: seq<Notification>, last: int, k: nat)
    requires k <= |h| && Filter(NewerThan(last), h) == h[k..]
    ensures forall i :: 0 <= i < k ==> h[i].releaseId <= last
    ensures forall i :: k <= i < |h| ==> h[i].releaseId > last
  {
    var p := NewerThan(last);
    FilterSound(p, h);
    forall i | k <= i < |h| ensures h[i].releaseId > last { assert h[i] == h[k..][i - k]; assert p(h[i]); }
    FilterAll(p, h[k..]);
    assert h == h[..k] + h[k..];
    FilterConcat(p, h[..k], h[k..]);
    assert |Filter(p, h[..k])| == 0;
    EmptyFilter(p, h[..k]);
    forall i | 0 <= i < k ensures h[i].releaseId <= last { assert h[i] in h[..k]; assert !p(h[i]); }
  }

  /**
   * Catch-up returns exactly the history from position `k` on when `last` separates the release ids
   * at `k`, and only then.
   */
  lemma MissedIsSuffix(f: Fields, ns: string, last: int, k: nat)
    requires k <= |HistoryOf(f, ns)|
    ensures Missed(f, ns, last) == HistoryOf(f, ns)[k..] <==>
            && (forall i :: 0 <= i < k ==> HistoryOf(f, ns)[i].releaseId <= last)
            && (forall i :: k <= i < |HistoryOf(f, ns)| ==> HistoryOf(f, ns)[i].releaseId > last)
  {
    var h := HistoryOf(f, ns);
    if Missed(f, ns, last) == h[k..] {
      SuffixIsSeparated(h, last, k);
    }
    if (forall i :: 0 <= i < k ==> h[i].releaseId <= last) && (forall i :: k <= i < |h| ==> h[i].releaseId > last) {
      SeparatedIsSuffix(h, last, k);
    }
  }
}
