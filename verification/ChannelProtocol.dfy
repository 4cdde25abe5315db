/**
 * Publishers, long-poll waiters and subscribers interleaving over one channel. Each step is one
 * region under the channel's mutex; a run is any sequence of steps, so a theorem about every run
 * is a theorem about every interleaving.
 */
module ChannelProtocol {
  import opened Seqs
  import opened Channel

  /**
   * A wait call is asleep on the condition variable, possibly already woken but not yet holding the
   * mutex, or has returned: `Some(n)` stands for true with `n` written out, `None` for false.
   */
  datatype Phase = Asleep(woken: bool) | Returned(result: Option<Notification>)
  datatype WaitCall = WaitCall(ns: string, phase: Phase)

  /** One `subscribe`: the history length when it joined and, once gone, when it left. */
  datatype Subscription = Subscription(ns: string, from: nat, until: Option<nat>)

  /** `taken` records what wait calls removed from the pending list, `queued` what publishes put on it. */
  datatype State = State(
    fields: Fields, waits: seq<WaitCall>, taken: seq<Delivery>, queued: seq<Notification>, subs: seq<Subscription>)

  const START := State(EMPTY, [], [], [], [])

  /**
   * `Resume` is any return from the condition variable before the deadline, notified or spurious;
   * `Expire` is the return on timeout, which evaluates the predicate one last time.
   */
  datatype Step =
    | Publish(n: Notification, throwsAt: Option<nat>)
    | Subscribe(ns: string)
    | Unsubscribe(ns: string)
    | BeginWait(ns: string)
    | Resume(call: nat)
    | Expire(call: nat)

  function TakenIn(ns: string): Delivery -> bool { (d: Delivery) => d.notification.namespaceId == ns }

  /** What waiters removed for one namespace, in the order they removed it. */
  function TakenFor(s: State, ns: string): seq<Notification> { Notifications(Filter(TakenIn(ns), s.taken)) }

  /** What one wait call removed. */
  function TakenBy(s: State, call: nat): seq<Notification> { Notifications(Filter(To(call), s.taken)) }

  function QueuedFor(s: State, ns: string): seq<Notification> { Filter(InNamespace(ns), s.queued) }

  function WakeAll(waits: seq<WaitCall>): (r: seq<WaitCall>)
    ensures |r| == |waits|
  {
    seq(|waits|, i requires 0 <= i < |waits| =>
      if waits[i].phase.Asleep? then waits[i].(phase := Asleep(true)) else waits[i])
  }

  /** Leaving ends every open subscription of the namespace at history length `end`. */
  function EndAll(subs: seq<Subscription>, ns: string, end: nat): (r: seq<Subscription>)
    ensures |r| == |subs|
  {
    seq(|subs|, i requires 0 <= i < |subs| =>
      if subs[i].ns == ns && subs[i].until.None? then subs[i].(until := Some(end)) else subs[i])
  }

  /** One evaluation of the scan by a wait call; on a miss the call goes to `onMiss`. */
  function Evaluate(s: State, call: nat, onMiss: Phase): State
    requires call < |s.waits|
  {
    var (found, rest) := Take(s.fields.pending, s.waits[call].ns);
    match found
    case Some(n) => State(
      s.fields.(pending := rest),
      s.waits[call := s.waits[call].(phase := Returned(Some(n)))],
      s.taken + [Delivery(call, n)],
      s.queued,
      s.subs)
    case None => s.(waits := s.waits[call := s.waits[call].(phase := onMiss)])
  }

  function Next(s: State, step: Step): State {
    match step
    case Publish(n, throwsAt) =>
      var fields := Published(s.fields, n, throwsAt);
      if Throws(s.fields, n, throwsAt) then s.(fields := fields)
      else s.(fields := fields, waits := WakeAll(s.waits), queued := s.queued + [n])
    case Subscribe(ns) =>
      s.(fields := Subscribed(s.fields, ns, |s.subs|),
         subs := s.subs + [Subscription(ns, |HistoryOf(s.fields, ns)|, None)])
    case Unsubscribe(ns) =>
      s.(fields := Unsubscribed(s.fields, ns), subs := EndAll(s.subs, ns, |HistoryOf(s.fields, ns)|))
    case BeginWait(ns) =>
      // The scan before the wait, then the wait's own first evaluation, under one lock.
      var call := |s.waits|;
      var first := Evaluate(s.(waits := s.waits + [WaitCall(ns, Asleep(false))]), call, Asleep(false));
      if first.waits[call].phase.Returned? then first else Evaluate(first, call, Asleep(false))
    case Resume(call) =>
      if call < |s.waits| && s.waits[call].phase.Asleep? then Evaluate(s, call, Asleep(false)) else s
    case Expire(call) =>
      if call < |s.waits| && s.waits[call].phase.Asleep? then Evaluate(s, call, Returned(None)) else s
  }

  function Run(steps: seq<Step>): State {
    if steps == [] then START else Next(Run(steps[..|steps| - 1]), steps[|steps| - 1])
  }

  /** What the run published, in order, whatever the channel did with it and whether or not it threw. */
  function Publications(steps: seq<Step>): seq<Notification> {
    if steps == [] then [] else
      var last := steps[|steps| - 1];
      Publications(steps[..|steps| - 1]) + if last.Publish? then [last.n] else []
  }

  predicate StepThrows(s: State, step: Step) { step.Publish? && Throws(s.fields, step.n, step.throwsAt) }

  /** The publications whose publish returned. */
  function Completed(steps: seq<Step>): seq<Notification> {
    if steps == [] then [] else
      var m := |steps| - 1;
      Completed(steps[..m]) + if steps[m].Publish? && !StepThrows(Run(steps[..m]), steps[m]) then [steps[m].n] else []
  }

  /** How many publishes to a namespace were cut short by a throwing callback. */
  function Thrown(steps: seq<Step>, ns: string): nat {
    if steps == [] then 0 else
      var m := |steps| - 1;
      Thrown(steps[..m], ns) + if StepThrows(Run(steps[..m]), steps[m]) && steps[m].n.namespaceId == ns then 1 else 0
  }

  // The invariant, part by part.

  ghost predicate Conserved(s: State) {
    forall ns :: QueuedFor(s, ns) == TakenFor(s, ns) + PendingFor(s.fields, ns)
  }

  ghost predicate SleepersHaveNothing(s: State) {
    forall c :: 0 <= c < |s.waits| && s.waits[c].phase == Asleep(false) ==> PendingFor(s.fields, s.waits[c].ns) == []
  }

  ghost predicate CallOk(s: State, c: nat)
    requires c < |s.waits|
  {
    match s.waits[c].phase
    case Returned(Some(n)) => TakenBy(s, c) == [n] && n.namespaceId == s.waits[c].ns
    case _ => TakenBy(s, c) == []
  }

  ghost predicate CallsAccounted(s: State) {
    && (forall c :: 0 <= c < |s.waits| ==> CallOk(s, c))
    && (forall d :: d in s.taken ==> d.to < |s.waits|)
  }

  /** The notifications a subscription is owed: its slice of the namespace's history. */
  function Slice(s: State, cb: nat): seq<Notification>
    requires cb < |s.subs|
    requires SliceDefined(s, cb)
  {
    var sub := s.subs[cb];
    HistoryOf(s.fields, sub.ns)[sub.from..SliceEnd(s, cb)]
  }

  function SliceEnd(s: State, cb: nat): nat
    requires cb < |s.subs|
  {
    if s.subs[cb].until.Some? then s.subs[cb].until.value else |HistoryOf(s.fields, s.subs[cb].ns)|
  }

  predicate SliceDefined(s: State, cb: nat)
    requires cb < |s.subs|
  {
    s.subs[cb].from <= SliceEnd(s, cb) <= |HistoryOf(s.fields, s.subs[cb].ns)|
  }

  ghost predicate Listed(s: State) {
    && (forall ns, i, j :: 0 <= i < j < |SubscribersOf(s.fields, ns)| ==>
          SubscribersOf(s.fields, ns)[i] < SubscribersOf(s.fields, ns)[j])
    && (forall ns, cb: nat :: cb in SubscribersOf(s.fields, ns) <==> Open(s, ns, cb))
  }

  predicate Open(s: State, ns: string, cb: nat) {
    cb < |s.subs| && s.subs[cb].ns == ns && s.subs[cb].until.None?
  }

  ghost predicate CallsKnown(s: State) {
    && (forall cb :: 0 <= cb < |s.subs| ==> SliceDefined(s, cb))
    && (forall d :: d in s.fields.calls ==> d.to < |s.subs|)
  }

  ghost predicate Inv(s: State) {
    Conserved(s) && SleepersHaveNothing(s) && CallsAccounted(s) && Listed(s) && CallsKnown(s)
  }

  // One evaluation of the scan.

  lemma TakenSnoc(s: State, d: Delivery, p: Delivery -> bool)
    ensures Notifications(Filter(p, s.taken + [d]))
            == Notifications(Filter(p, s.taken)) + if p(d) then [d.notification] else []
  {
    FilterSnoc(p, s.taken, d);
  }

  /** Steps that touch neither the queue, the pending list nor the takes keep the balance. */
  lemma ConservedFrame(s: State, s': State)
    requires Conserved(s)
    requires s'.queued == s.queued && s'.fields.pending == s.fields.pending && s'.taken == s.taken
    ensures Conserved(s')
  {
    forall ns ensures QueuedFor(s', ns) == TakenFor(s', ns) + PendingFor(s'.fields, ns) {
      assert QueuedFor(s, ns) == TakenFor(s, ns) + PendingFor(s.fields, ns);
    }
  }

  /** Steps that touch neither takes nor phases keep the accounts. */
  lemma AccountsFrame(s: State, s': State)
    requires CallsAccounted(s) && s'.taken == s.taken && |s'.waits| == |s.waits|
    requires forall c :: 0 <= c < |s.waits| ==> s'.waits[c].ns == s.waits[c].ns
    requires forall c :: 0 <= c < |s.waits| ==> s'.waits[c].phase == s.waits[c].phase
                                                || (s.waits[c].phase.Asleep? && s'.waits[c].phase.Asleep?)
    ensures CallsAccounted(s')
  {
    forall c | 0 <= c < |s'.waits| ensures CallOk(s', c) { assert CallOk(s, c); }
  }

  lemma EvaluateConserves(s: State, call: nat, onMiss: Phase)
    requires call < |s.waits| && Conserved(s)
    ensures Conserved(Evaluate(s, call, onMiss))
  {
    var s' := Evaluate(s, call, onMiss);
    var ns := s.waits[call].ns;
    TakeIsOldest(s.fields.pending, ns);
    forall other ensures QueuedFor(s', other) == TakenFor(s', other) + PendingFor(s'.fields, other) {
      assert QueuedFor(s, other) == TakenFor(s, other) + PendingFor(s.fields, other);
      if Take(s.fields.pending, ns).0.Some? {
        var n := Take(s.fields.pending, ns).0.value;
        TakenNamespace(s.fields.pending, ns);
        TakenSnoc(s, Delivery(call, n), TakenIn(other));
      }
    }
  }

  lemma TakenNamespace(pending: seq<Notification>, ns: string)
    requires Take(pending, ns).0.Some?
    ensures Take(pending, ns).0.value.namespaceId == ns
  {
    TakeIsOldest(pending, ns);
    FilterSound(InNamespace(ns), pending);
    assert Take(pending, ns).0.value in Filter(InNamespace(ns), pending);
  }

  lemma EvaluateKeepsSleepers(s: State, call: nat, onMiss: Phase)
    requires call < |s.waits| && SleepersHaveNothing(s)
    ensures SleepersHaveNothing(Evaluate(s, call, onMiss))
  {
    TakeIsOldest(s.fields.pending, s.waits[call].ns);
  }

  lemma EvaluateAccounts(s: State, call: nat, onMiss: Phase)
    requires call < |s.waits| && CallsAccounted(s)
    requires s.waits[call].phase.Asleep?
    requires onMiss.Asleep? || onMiss == Returned(None)
    ensures CallsAccounted(Evaluate(s, call, onMiss))
  {
    var s' := Evaluate(s, call, onMiss);
    var ns := s.waits[call].ns;
    assert CallOk(s, call);
    forall c | 0 <= c < |s'.waits| ensures CallOk(s', c) {
      assert CallOk(s, c);
      if Take(s.fields.pending, ns).0.Some? {
        TakenNamespace(s.fields.pending, ns);
        TakenSnoc(s, Delivery(call, Take(s.fields.pending, ns).0.value), To(c));
      }
    }
  }

  /** Steps that touch neither subscribers, history nor calls keep what is known of subscriptions. */
  lemma SubscriptionsFrame(s: State, s': State)
    requires Listed(s) && CallsKnown(s)
    requires s'.subs == s.subs && s'.fields.subscribers == s.fields.subscribers
    requires s'.fields.history == s.fields.history && s'.fields.calls == s.fields.calls
    ensures Listed(s') && CallsKnown(s')
  {
    assert forall ns :: SubscribersOf(s'.fields, ns) == SubscribersOf(s.fields, ns);
    forall ns, cb: nat ensures cb in SubscribersOf(s'.fields, ns) <==> Open(s', ns, cb) {
      assert cb in SubscribersOf(s.fields, ns) <==> Open(s, ns, cb);
    }
    forall cb | 0 <= cb < |s'.subs| ensures SliceDefined(s', cb) { assert SliceDefined(s, cb); }
  }

  lemma EvaluateInv(s: State, call: nat, onMiss: Phase)
    requires call < |s.waits| && Inv(s) && s.waits[call].phase.Asleep?
    requires onMiss.Asleep? || onMiss == Returned(None)
    ensures Inv(Evaluate(s, call, onMiss))
  {
    EvaluateConserves(s, call, onMiss);
    EvaluateKeepsSleepers(s, call, onMiss);
    EvaluateAccounts(s, call, onMiss);
    SubscriptionsFrame(s, Evaluate(s, call, onMiss));
  }

  // Publishing.

  lemma {:induction false} CallAllFiltered(cbs: seq<CallbackId>, n: Notification, cb: CallbackId)
    requires forall i, j :: 0 <= i < j < |cbs| ==> cbs[i] < cbs[j]
    ensures Filter(To(cb), CallAll(cbs, n)) == if cb in cbs then [Delivery(cb, n)] else []
  {
    if cbs != [] {
      var m := |cbs| - 1;
      CallAllFiltered(cbs[..m], n, cb);
      assert CallAll(cbs, n) == CallAll(cbs[..m], n) + [Delivery(cbs[m], n)];
      FilterSnoc(To(cb), CallAll(cbs[..m], n), Delivery(cbs[m], n));
      assert cbs == cbs[..m] + [cbs[m]];
    }
  }

  lemma PublishReceived(s: State, n: Notification, throwsAt: Option<nat>, cb: nat)
    requires Listed(s)
    ensures Received(Published(s.fields, n, throwsAt), cb)
            == Received(s.fields, cb) + if cb in Called(s.fields, n, throwsAt) then [n] else []
  {
    var cbs := Called(s.fields, n, throwsAt);
    CallAllFiltered(cbs, n, cb);
    FilterConcat(To(cb), s.fields.calls, CallAll(cbs, n));
  }

  lemma PublishedPending(s: State, n: Notification, ns: string, taken: seq<Notification>)
    requires QueuedFor(s, ns) == taken + PendingFor(s.fields, ns)
    ensures Filter(InNamespace(ns), s.queued + [n]) == taken + Filter(InNamespace(ns), s.fields.pending + [n])
  {
    FilterSnoc(InNamespace(ns), s.fields.pending, n);
    FilterSnoc(InNamespace(ns), s.queued, n);
  }

  lemma PublishConserves(s: State, n: Notification, throwsAt: Option<nat>)
    requires Conserved(s)
    ensures Conserved(Next(s, Publish(n, throwsAt)))
  {
    var s' := Next(s, Publish(n, throwsAt));
    if Throws(s.fields, n, throwsAt) {
      ConservedFrame(s, s');
    } else {
      forall ns ensures QueuedFor(s', ns) == TakenFor(s', ns) + PendingFor(s'.fields, ns) {
        assert QueuedFor(s, ns) == TakenFor(s, ns) + PendingFor(s.fields, ns);
        PublishedPending(s, n, ns, TakenFor(s, ns));
        assert s'.queued == s.queued + [n] && s'.fields.pending == s.fields.pending + [n];
      }
    }
  }

  lemma PublishSubscriptions(s: State, n: Notification, throwsAt: Option<nat>)
    requires Listed(s) && CallsKnown(s)
    ensures var s' := Next(s, Publish(n, throwsAt)); Listed(s') && CallsKnown(s')
  {
    var s' := Next(s, Publish(n, throwsAt));
    assert forall ns :: SubscribersOf(s'.fields, ns) == SubscribersOf(s.fields, ns);
    forall ns, cb: nat ensures cb in SubscribersOf(s'.fields, ns) <==> Open(s', ns, cb) {
      assert cb in SubscribersOf(s.fields, ns) <==> Open(s, ns, cb);
    }
    forall cb | 0 <= cb < |s'.subs| ensures SliceDefined(s', cb) { assert SliceDefined(s, cb); }
    var cbs := Called(s.fields, n, throwsAt);
    forall d | d in s'.fields.calls ensures d.to < |s'.subs| {
      if d !in s.fields.calls {
        assert d in CallAll(cbs, n);
        var i :| 0 <= i < |cbs| && CallAll(cbs, n)[i] == d;
        assert cbs[i] == SubscribersOf(s.fields, n.namespaceId)[i];
        assert cbs[i] in SubscribersOf(s.fields, n.namespaceId) && Open(s, n.namespaceId, cbs[i]);
      }
    }
  }

  lemma PublishInv(s: State, n: Notification, throwsAt: Option<nat>)
    requires Inv(s)
    ensures Inv(Next(s, Publish(n, throwsAt)))
  {
    var s' := Next(s, Publish(n, throwsAt));
    PublishConserves(s, n, throwsAt);
    AccountsFrame(s, s');
    PublishSubscriptions(s, n, throwsAt);
  }

  // Joining and leaving.

  lemma SubscribeListed(s: State, ns: string)
    requires Inv(s)
    ensures Listed(Next(s, Subscribe(ns)))
  {
    var s' := Next(s, Subscribe(ns));
    forall other ensures SubscribersOf(s'.fields, other)
                         == if other == ns then SubscribersOf(s.fields, ns) + [|s.subs|]
                            else SubscribersOf(s.fields, other) {}
    forall other, cb: nat ensures cb in SubscribersOf(s'.fields, other) <==> Open(s', other, cb) {
      assert cb in SubscribersOf(s.fields, other) <==> Open(s, other, cb);
    }
    forall other, i, j | 0 <= i < j < |SubscribersOf(s'.fields, other)|
      ensures SubscribersOf(s'.fields, other)[i] < SubscribersOf(s'.fields, other)[j]
    {
      var listed := SubscribersOf(s.fields, other);
      if j == |listed| {
        assert listed[i] in listed && Open(s, other, listed[i]);
      } else {
        assert listed[i] < listed[j];
      }
    }
  }

  lemma SubscribeInv(s: State, ns: string)
    requires Inv(s)
    ensures Inv(Next(s, Subscribe(ns)))
  {
    var s' := Next(s, Subscribe(ns));
    SubscribeListed(s, ns);
    ConservedFrame(s, s');
    AccountsFrame(s, s');
    forall cb | 0 <= cb < |s'.subs| ensures SliceDefined(s', cb) {
      if cb < |s.subs| { assert SliceDefined(s, cb); }
    }
  }

  lemma UnsubscribeInv(s: State, ns: string)
    requires Inv(s)
    ensures Inv(Next(s, Unsubscribe(ns)))
  {
    var s' := Next(s, Unsubscribe(ns));
    forall other
      ensures SubscribersOf(s'.fields, other) == if other == ns then [] else SubscribersOf(s.fields, other)
    {}
    forall other, cb: nat ensures cb in SubscribersOf(s'.fields, other) <==> Open(s', other, cb) {
      assert cb in SubscribersOf(s.fields, other) <==> Open(s, other, cb);
    }
    ConservedFrame(s, s');
    AccountsFrame(s, s');
    forall cb | 0 <= cb < |s'.subs| ensures SliceDefined(s', cb) { assert SliceDefined(s, cb); }
  }

  // Waiting.

  lemma EnrolInv(s: State, ns: string)
    requires Inv(s)
    ensures var s' := s.(waits := s.waits + [WaitCall(ns, Asleep(false))]);
            Conserved(s') && CallsAccounted(s') && Listed(s') && CallsKnown(s')
  {
    var s' := s.(waits := s.waits + [WaitCall(ns, Asleep(false))]);
    FilterNone(To(|s.waits|), s.taken);
    ConservedFrame(s, s');
    forall c | 0 <= c < |s'.waits| ensures CallOk(s', c) {
      if c < |s.waits| { assert CallOk(s, c); }
    }
    SubscriptionsFrame(s, s');
  }

  /** After the scan on entry the new call has returned, or sleeps with nothing to take. */
  lemma EnrolKeepsSleepers(s: State, ns: string)
    requires SleepersHaveNothing(s)
    ensures var s0 := s.(waits := s.waits + [WaitCall(ns, Asleep(false))]);
            SleepersHaveNothing(Evaluate(s0, |s.waits|, Asleep(false)))
  {
    TakeIsOldest(s.fields.pending, ns);
  }

  lemma BeginWaitInv(s: State, ns: string)
    requires Inv(s)
    ensures Inv(Next(s, BeginWait(ns)))
  {
    var call := |s.waits|;
    var s0 := s.(waits := s.waits + [WaitCall(ns, Asleep(false))]);
    var s1 := Evaluate(s0, call, Asleep(false));
    assert Inv(s1) by {
      EnrolInv(s, ns);
      EnrolKeepsSleepers(s, ns);
      EvaluateConserves(s0, call, Asleep(false));
      EvaluateAccounts(s0, call, Asleep(false));
      SubscriptionsFrame(s0, s1);
    }
    if s1.waits[call].phase.Asleep? {
      EvaluateInv(s1, call, Asleep(false));
    }
  }

  lemma NextInv(s: State, step: Step)
    requires Inv(s)
    ensures Inv(Next(s, step))
  {
    match step
    case Publish(n, throwsAt) => PublishInv(s, n, throwsAt);
    case Subscribe(ns) => SubscribeInv(s, ns);
    case Unsubscribe(ns) => UnsubscribeInv(s, ns);
    case BeginWait(ns) => BeginWaitInv(s, ns);
    case Resume(call) =>
      if call < |s.waits| && s.waits[call].phase.Asleep? { EvaluateInv(s, call, Asleep(false)); }
    case Expire(call) =>
      if call < |s.waits| && s.waits[call].phase.Asleep? { EvaluateInv(s, call, Returned(None)); }
  }

  lemma {:induction false} RunInv(steps: seq<Step>)
    ensures Inv(Run(steps))
  {
    if steps != [] {
      RunInv(steps[..|steps| - 1]);
      NextInv(Run(steps[..|steps| - 1]), steps[|steps| - 1]);
    }
  }

  /** Only a publication changes the history, and only one that returns changes the queue. */
  lemma NextHistory(s: State, step: Step, ns: string)
    ensures HistoryOf(Next(s, step).fields, ns)
            == HistoryOf(s.fields, ns) + if step.Publish? && step.n.namespaceId == ns then [step.n] else []
    ensures Next(s, step).queued == s.queued + if step.Publish? && !StepThrows(s, step) then [step.n] else []
  {
  }

  /** The stored history is what was published, no more and no less. */
  lemma {:induction false} HistoryIsPublications(steps: seq<Step>, ns: string)
    ensures HistoryOf(Run(steps).fields, ns) == Filter(InNamespace(ns), Publications(steps))
  {
    if steps != [] {
      var m := |steps| - 1;
      HistoryIsPublications(steps[..m], ns);
      NextHistory(Run(steps[..m]), steps[m], ns);
      if steps[m].Publish? {
        FilterSnoc(InNamespace(ns), Publications(steps[..m]), steps[m].n);
      } else {
        assert Publications(steps) == Publications(steps[..m]);
      }
    }
  }

  lemma {:induction false} QueueIsCompleted(steps: seq<Step>)
    ensures Run(steps).queued == Completed(steps)
  {
    if steps != [] {
      QueueIsCompleted(steps[..|steps| - 1]);
      NextHistory(Run(steps[..|steps| - 1]), steps[|steps| - 1], "");
    }
  }

  /** Publications are the completed ones and, by number, the thrown ones. */
  lemma {:induction false} ThrownAreMissing(steps: seq<Step>, ns: string)
    ensures var all, done := Filter(InNamespace(ns), Publications(steps)), Filter(InNamespace(ns), Completed(steps));
            |all| == |done| + Thrown(steps, ns) && (Thrown(steps, ns) == 0 ==> all == done)
  {
    if steps != [] {
      var m := |steps| - 1;
      ThrownAreMissing(steps[..m], ns);
      if steps[m].Publish? {
        FilterSnoc(InNamespace(ns), Publications(steps[..m]), steps[m].n);
        FilterSnoc(InNamespace(ns), Completed(steps[..m]), steps[m].n);
        assert Publications(steps) == Publications(steps[..m]) + [steps[m].n];
        assert Completed(steps)
               == if StepThrows(Run(steps[..m]), steps[m]) then Completed(steps[..m])
                  else Completed(steps[..m]) + [steps[m].n];
      } else {
        assert Publications(steps) == Publications(steps[..m]) && Completed(steps) == Completed(steps[..m]);
      }
    }
  }

  // Theorems about every run.

  /**
   * Exactly once and in order: the publications to a namespace whose publish returned are what waiters
   * have taken, in the order they took it, followed by what is still pending; and these are all its
   * publications exactly when no callback threw in one of them.
   */
  lemma ExactlyOnceInOrder(steps: seq<Step>, ns: string)
    ensures var s := Run(steps);
            && Filter(InNamespace(ns), Completed(steps)) == TakenFor(s, ns) + PendingFor(s.fields, ns)
            && (Filter(InNamespace(ns), Publications(steps)) == TakenFor(s, ns) + PendingFor(s.fields, ns)
                <==> Thrown(steps, ns) == 0)
  {
    RunInv(steps);
    QueueIsCompleted(steps);
    ThrownAreMissing(steps, ns);
    assert QueuedFor(Run(steps), ns) == TakenFor(Run(steps), ns) + PendingFor(Run(steps).fields, ns);
  }

  /** A sleeper that nobody has woken has nothing to take. */
  lemma NoLostWakeup(steps: seq<Step>, call: nat)
    requires call < |Run(steps).waits|
    requires Run(steps).waits[call].phase == Asleep(false)
    ensures PendingFor(Run(steps).fields, Run(steps).waits[call].ns) == []
  {
    RunInv(steps);
  }

  /**
   * Whenever a sleeper's namespace has something pending, the sleeper has been woken, and whether it
   * then resumes or times out it returns true with the oldest pending notification.
   */
  lemma PendingReachesSleeper(steps: seq<Step>, call: nat)
    requires call < |Run(steps).waits| && Run(steps).waits[call].phase.Asleep?
    requires PendingFor(Run(steps).fields, Run(steps).waits[call].ns) != []
    ensures var s := Run(steps);
            var oldest := PendingFor(s.fields, s.waits[call].ns)[0];
            && s.waits[call].phase.woken
            && Next(s, Resume(call)).waits[call].phase == Returned(Some(oldest))
            && Next(s, Expire(call)).waits[call].phase == Returned(Some(oldest))
  {
    RunInv(steps);
    TakeIsOldest(Run(steps).fields.pending, Run(steps).waits[call].ns);
  }

  /**
   * A wait call that returned true removed exactly one notification, the one it returned and one of
   * its namespace; a call that returned false or has not returned removed none, however often its
   * predicate was evaluated.
   */
  lemma ReturnsTrueIffRemovedOne(steps: seq<Step>, call: nat)
    requires call < |Run(steps).waits|
    ensures var s := Run(steps);
            var phase := s.waits[call].phase;
            && |TakenBy(s, call)| <= 1
            && (|TakenBy(s, call)| == 1 <==> phase.Returned? && phase.result.Some?)
            && (|TakenBy(s, call)| == 1 ==>
                  phase.result.value == TakenBy(s, call)[0]
                  && phase.result.value.namespaceId == s.waits[call].ns)
  {
    RunInv(steps);
    assert CallOk(Run(steps), call);
  }

  // When a wait sleeps and what it returns.

  /** What an evaluation of the scan by a call of namespace `ns` would take. */
  function Oldest(s: State, ns: string): Option<Notification> {
    if PendingFor(s.fields, ns) == [] then None else Some(PendingFor(s.fields, ns)[0])
  }

  /** A wait returns at once with the oldest pending notification of its namespace, or goes to sleep. */
  lemma WaitReturnsOrSleeps(s: State, ns: string)
    ensures var call, s' := |s.waits|, Next(s, BeginWait(ns));
            && |s'.waits| == call + 1 && s'.waits[..call] == s.waits && s'.waits[call].ns == ns
            && s'.waits[call].phase == (if Oldest(s, ns).Some? then Returned(Oldest(s, ns)) else Asleep(false))
  {
    TakeIsOldest(s.fields.pending, ns);
  }

  /** A sleeper that wakes up goes on sleeping, and one that times out returns false, when nothing is pending. */
  lemma SleeperReturns(s: State, call: nat)
    requires call < |s.waits| && s.waits[call].phase.Asleep?
    ensures var found := Oldest(s, s.waits[call].ns);
            && Next(s, Resume(call)).waits[call].phase == (if found.Some? then Returned(found) else Asleep(false))
            && Next(s, Expire(call)).waits[call].phase == Returned(found)
  {
    TakeIsOldest(s.fields.pending, s.waits[call].ns);
  }

  /** Nothing but its own wake-up or timeout makes a sleeper return, and what has returned stays so. */
  lemma OthersLeavePhase(s: State, step: Step, call: nat)
    requires call < |s.waits| && step != Resume(call) && step != Expire(call)
    ensures var s' := Next(s, step);
            && call < |s'.waits| && s'.waits[call].ns == s.waits[call].ns
            && (s'.waits[call].phase.Asleep? <==> s.waits[call].phase.Asleep?)
            && (s.waits[call].phase.Returned? ==> s'.waits[call].phase == s.waits[call].phase)
  {
    if step.BeginWait? {
      WaitReturnsOrSleeps(s, step.ns);
      assert Next(s, step).waits[call] == Next(s, step).waits[..|s.waits|][call];
    }
  }

  predicate Sleeps(s: State, call: nat) { call < |s.waits| && s.waits[call].phase.Asleep? }

  predicate HasReturned(s: State, call: nat, result: Option<Notification>) {
    call < |s.waits| && s.waits[call].phase == Returned(result)
  }

  /**
   * The step makes the call return `result`: its entry, its wake-up or its timeout, evaluated while it
   * has not returned, finds `result` as the oldest pending notification; only a timeout returns on none.
   */
  predicate DecidesIn(s: State, step: Step, call: nat, result: Option<Notification>) {
    match step
    case BeginWait(ns) => |s.waits| == call && result.Some? && result == Oldest(s, ns)
    case Resume(c) => c == call && Sleeps(s, call) && result.Some? && result == Oldest(s, s.waits[call].ns)
    case Expire(c) => c == call && Sleeps(s, call) && result == Oldest(s, s.waits[call].ns)
    case _ => false
  }

  /** Some step of the run makes the call return `result`. */
  predicate Decided(steps: seq<Step>, call: nat, result: Option<Notification>) {
    steps != [] &&
      var m := |steps| - 1;
      Decided(steps[..m], call, result) || DecidesIn(Run(steps[..m]), steps[m], call, result)
  }

  lemma OldCallDecides(s: State, step: Step, call: nat, result: Option<Notification>)
    requires call < |s.waits|
    ensures HasReturned(Next(s, step), call, result) <==>
            HasReturned(s, call, result) || DecidesIn(s, step, call, result)
  {
    if step == Resume(call) || step == Expire(call) {
      if s.waits[call].phase.Asleep? { SleeperReturns(s, call); }
    } else {
      OthersLeavePhase(s, step, call);
    }
  }

  lemma NewCallDecides(s: State, step: Step, call: nat, result: Option<Notification>)
    requires call >= |s.waits|
    ensures HasReturned(Next(s, step), call, result) <==> DecidesIn(s, step, call, result)
  {
    if step.BeginWait? { WaitReturnsOrSleeps(s, step.ns); }
  }

  /**
   * In every run a call has returned `result` if and only if one of its own evaluations decided so. In
   * particular it has returned false if and only if its timeout found it asleep with nothing pending.
   */
  lemma {:induction false} ReturnedIffDecided(steps: seq<Step>, call: nat, result: Option<Notification>)
    ensures HasReturned(Run(steps), call, result) <==> Decided(steps, call, result)
  {
    if steps != [] {
      var m := |steps| - 1;
      var s := Run(steps[..m]);
      ReturnedIffDecided(steps[..m], call, result);
      if call < |s.waits| {
        OldCallDecides(s, steps[m], call, result);
      } else {
        NewCallDecides(s, steps[m], call, result);
      }
    }
  }

  // Callbacks.

  /** The step publishes to an open callback but one listed before it throws. */
  predicate Skips(s: State, step: Step, cb: nat) {
    step.Publish? && step.throwsAt.Some? &&
      var listed := SubscribersOf(s.fields, step.n.namespaceId);
      step.throwsAt.value < |listed| && cb in listed[step.throwsAt.value + 1..]
  }

  function Skipped(steps: seq<Step>, cb: nat): nat {
    if steps == [] then 0 else
      var m := |steps| - 1;
      Skipped(steps[..m], cb) + if Skips(Run(steps[..m]), steps[m], cb) then 1 else 0
  }

  /** A callback's log falls short of its slice by the skipped publications, and is the slice when there are none. */
  ghost predicate SliceOk(s: State, cb: nat, skipped: nat) {
    if cb < |s.subs| then
      && SliceDefined(s, cb)
      && |Received(s.fields, cb)| + skipped == |Slice(s, cb)|
      && (skipped == 0 ==> Received(s.fields, cb) == Slice(s, cb))
    else skipped == 0
  }

  /** A longer history extends the slices still open at its end and no other. */
  lemma SliceGrows(s: State, s': State, more: seq<Notification>, cb: nat)
    requires cb < |s.subs| && s'.subs == s.subs && SliceDefined(s, cb)
    requires HistoryOf(s'.fields, s.subs[cb].ns) == HistoryOf(s.fields, s.subs[cb].ns) + more
    ensures SliceDefined(s', cb)
    ensures Slice(s', cb) == Slice(s, cb) + if s.subs[cb].until.None? then more else []
  {
    var sub, h := s.subs[cb], HistoryOf(s.fields, s.subs[cb].ns);
    if sub.until.None? {
      assert (h + more)[sub.from..|h + more|] == h[sub.from..|h|] + more;
    } else {
      assert (h + more)[sub.from..sub.until.value] == h[sub.from..sub.until.value];
    }
  }

  /** A publish extends the slice of exactly the open subscriptions of its namespace. */
  lemma PublishedSlice(s: State, n: Notification, throwsAt: Option<nat>, cb: nat)
    requires cb < |s.subs| && SliceDefined(s, cb)
    ensures var s' := Next(s, Publish(n, throwsAt));
            && SliceDefined(s', cb)
            && Slice(s', cb) == Slice(s, cb) + if Open(s, n.namespaceId, cb) then [n] else []
  {
    SliceGrows(s, Next(s, Publish(n, throwsAt)), if s.subs[cb].ns == n.namespaceId then [n] else [], cb);
  }

  lemma PublishSlice(s: State, n: Notification, throwsAt: Option<nat>, cb: nat, skipped: nat)
    requires Inv(s) && SliceOk(s, cb, skipped)
    ensures var step := Publish(n, throwsAt);
            SliceOk(Next(s, step), cb, skipped + if Skips(s, step, cb) then 1 else 0)
  {
    var listed := SubscribersOf(s.fields, n.namespaceId);
    assert cb in listed <==> Open(s, n.namespaceId, cb);
    if Throws(s.fields, n, throwsAt) {
      var j := throwsAt.value + 1;
      assert listed == listed[..j] + listed[j..];
      assert !(cb in listed[..j] && cb in listed[j..]);
    }
    if cb < |s.subs| {
      PublishReceived(s, n, throwsAt, cb);
      PublishedSlice(s, n, throwsAt, cb);
    }
  }

  lemma FreshReceivesNothing(f: Fields, cb: nat)
    requires forall d :: d in f.calls ==> d.to < cb
    ensures Received(f, cb) == []
  {
    FilterNone(To(cb), f.calls);
  }

  /** Steps that touch neither history, calls nor the subscription keep its slice. */
  lemma SliceFrame(s: State, s': State, cb: nat, skipped: nat)
    requires SliceOk(s, cb, skipped) && |s'.subs| == |s.subs|
    requires s'.fields.history == s.fields.history && s'.fields.calls == s.fields.calls
    requires cb < |s.subs| ==>
               s'.subs[cb] == s.subs[cb]
               || (s.subs[cb].until.None?
                   && s'.subs[cb] == s.subs[cb].(until := Some(|HistoryOf(s.fields, s.subs[cb].ns)|)))
    ensures SliceOk(s', cb, skipped)
  {
  }

  lemma NextSlice(s: State, step: Step, cb: nat, skipped: nat)
    requires Inv(s) && SliceOk(s, cb, skipped)
    ensures SliceOk(Next(s, step), cb, skipped + if Skips(s, step, cb) then 1 else 0)
  {
    match step
    case Publish(n, throwsAt) => PublishSlice(s, n, throwsAt, cb, skipped);
    case Subscribe(ns) => if cb == |s.subs| { FreshReceivesNothing(s.fields, cb); }
    case _ => SliceFrame(s, Next(s, step), cb, skipped);
  }

  lemma {:induction false} RunSlice(steps: seq<Step>, cb: nat)
    ensures SliceOk(Run(steps), cb, Skipped(steps, cb))
  {
    if steps != [] {
      var m := |steps| - 1;
      RunInv(steps[..m]);
      RunSlice(steps[..m], cb);
      NextSlice(Run(steps[..m]), steps[m], cb, Skipped(steps[..m], cb));
    }
  }

  /**
   * A callback is called with its namespace's history from its subscription on, until it leaves,
   * exactly when no publish in between threw before reaching it.
   */
  lemma CallbackGetsItsSlice(steps: seq<Step>, cb: nat)
    requires cb < |Run(steps).subs|
    ensures var s := Run(steps);
            SliceDefined(s, cb) && (Received(s.fields, cb) == Slice(s, cb) <==> Skipped(steps, cb) == 0)
  {
    RunSlice(steps, cb);
  }

  ghost predicate Increasing(ns: seq<Notification>) {
    forall i, j :: 0 <= i < j < |ns| ==> ns[i].releaseId < ns[j].releaseId
  }

  /**
   * No gap and no repeat: a callback that received something and was never skipped, followed by the
   * catch-up from the last release id it saw, is the whole published history from its subscription on.
   */
  lemma CatchUpCompletesCallback(steps: seq<Step>, ns: string, cb: nat)
    requires cb < |Run(steps).subs| && Run(steps).subs[cb].ns == ns && Skipped(steps, cb) == 0
    requires Increasing(Filter(InNamespace(ns), Publications(steps)))
    ensures var s := Run(steps);
            var published := Filter(InNamespace(ns), Publications(steps));
            var got := Received(s.fields, cb);
            && s.subs[cb].from <= |published|
            && (got != [] ==> got + Missed(s.fields, ns, got[|got| - 1].releaseId) == published[s.subs[cb].from..])
  {
    var s := Run(steps);
    CallbackGetsItsSlice(steps, cb);
    HistoryIsPublications(steps, ns);
    SliceThenMissed(s.fields, ns, Received(s.fields, cb), s.subs[cb].from, SliceEnd(s, cb));
  }

  /** A slice of increasing history and the catch-up from its last entry join without gap or repeat. */
  lemma SliceThenMissed(f: Fields, ns: string, got: seq<Notification>, from: nat, end: nat)
    requires from <= end <= |HistoryOf(f, ns)| && got == HistoryOf(f, ns)[from..end] && Increasing(HistoryOf(f, ns))
    ensures got != [] ==> got + Missed(f, ns, got[|got| - 1].releaseId) == HistoryOf(f, ns)[from..]
  {
    var h := HistoryOf(f, ns);
    if got != [] {
      assert got[|got| - 1] == h[end - 1];
      MissedIsSuffix(f, ns, h[end - 1].releaseId, end);
      assert h[from..end] + h[end..] == h[from..];
    }
  }

  /** Without increasing release ids catch-up can skip: release 2 then release 1, last seen 2. */
  lemma CatchUpNeedsIncreasingIds()
    ensures var a, b := Notification("n", 2, [], 0), Notification("n", 1, [], 0);
            var s := Run([Publish(a, None), Publish(b, None)]);
            HistoryOf(s.fields, "n") == [a, b] && Missed(s.fields, "n", 2) == []
  {
    var a, b := Notification("n", 2, [], 0), Notification("n", 1, [], 0);
    var steps := [Publish(a, None), Publish(b, None)];
    assert steps[..1] == [Publish(a, None)] && steps[..1][..0] == [];
    assert Run(steps[..1]) == Next(START, Publish(a, None));
    assert HistoryOf(Run(steps).fields, "n") == [a, b];
    FilterNone(NewerThan(2), [a, b]);
  }

  /** A callback that throws: the publication is in the history, yet pending for nobody. */
  lemma ThrowingCallbackLosesNotification(n: Notification)
    ensures var s := Run([Subscribe(n.namespaceId), Publish(n, Some(0))]);
            && HistoryOf(s.fields, n.namespaceId) == [n]
            && TakenFor(s, n.namespaceId) + PendingFor(s.fields, n.namespaceId) == []
  {
    var steps := [Subscribe(n.namespaceId), Publish(n, Some(0))];
    assert steps[..1] == [Subscribe(n.namespaceId)] && steps[..1][..0] == [];
    assert Run(steps[..1][..0]) == START;
    var s1 := Run(steps[..1]);
    assert s1 == Next(START, Subscribe(n.namespaceId));
    assert SubscribersOf(s1.fields, n.namespaceId) == [0];
  }
}
