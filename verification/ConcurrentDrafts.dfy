/**
 * Draft additions that overlap. Adding a draft reads the live row in one locked region and, by what it
 * saw, updates or creates in a second, so any number of additions interleave with each other and with
 * other calls.
 */
module ConcurrentDrafts {
  import opened Seqs
  import opened ConfigTables
  import StoreRuns

  /** An addition that has read: its key, whether it saw a live row, when it read, and whether it has written. */
  datatype Addition = Addition(k: RowKey, live: bool, at: nat, pending: bool)

  /** `now` counts the steps. */
  datatype State = State(tables: Tables, additions: seq<Addition>, now: nat)

  /** The two regions of an addition, and any other locked region. */
  datatype Step =
    | Read(k: RowKey)
    | Write(a: nat, value: string, operator: string, ts: string)
    | Other(op: StoreRuns.Op)

  predicate CanWrite(s: State, a: nat) { a < |s.additions| && s.additions[a].pending }

  /** The store operation a step issues, if any. */
  function Issued(s: State, step: Step): seq<StoreRuns.Op> {
    match step
    case Read(_) => []
    case Other(op) => [op]
    case Write(a, value, operator, ts) =>
      if !CanWrite(s, a) then []
      else if s.additions[a].live then [StoreRuns.Update(s.additions[a].k, value, operator, true, ts)]
      else [StoreRuns.Create(s.additions[a].k, value, operator, ts)]
  }

  function Next(s: State, step: Step): State {
    var ops := Issued(s, step);
    var t := if ops == [] then s.tables else StoreRuns.Step(s.tables, ops[0]).0;
    var additions :=
      match step
      case Read(k) => s.additions + [Addition(k, Lookup(s.tables, k, false).Some?, s.now, true)]
      case Write(a, _, _, _) =>
        if CanWrite(s, a) then s.additions[a := s.additions[a].(pending := false)] else s.additions
      case Other(_) => s.additions;
    State(t, additions, s.now + 1)
  }

  function RunFrom(t: Tables, steps: seq<Step>): State {
    if steps == [] then State(t, [], 0) else Next(RunFrom(t, steps[..|steps| - 1]), steps[|steps| - 1])
  }

  /** What the run issues to the store, in order. */
  function Lower(t: Tables, steps: seq<Step>): seq<StoreRuns.Op> {
    if steps == [] then [] else
      var m := |steps| - 1;
      Lower(t, steps[..m]) + Issued(RunFrom(t, steps[..m]), steps[m])
  }

  /** Every interleaving is a store run, so the store theorems hold of it. */
  lemma {:induction false} InterleavingIsStoreRun(t: Tables, steps: seq<Step>)
    ensures RunFrom(t, steps).tables == StoreRuns.RunFrom(t, Lower(t, steps))
    ensures RunFrom(t, steps).now == |steps|
  {
    if steps != [] {
      var m := |steps| - 1;
      InterleavingIsStoreRun(t, steps[..m]);
      IssuedRun(t, Lower(t, steps[..m]), RunFrom(t, steps[..m]), steps[m]);
    }
  }

  lemma IssuedRun(t: Tables, before: seq<StoreRuns.Op>, s: State, step: Step)
    requires s.tables == StoreRuns.RunFrom(t, before)
    ensures Next(s, step).tables == StoreRuns.RunFrom(t, before + Issued(s, step))
  {
    var ops := Issued(s, step);
    if ops == [] {
      assert before + ops == before;
    } else {
      assert (before + ops)[..|before|] == before && (before + ops)[|before|] == ops[0] && |ops| == 1;
    }
  }

  /** A step keeps what every addition read; the one it adds read the tables as they were. */
  lemma NextAdditions(s: State, step: Step, a: nat)
    requires a < |Next(s, step).additions|
    ensures var r := Next(s, step).additions[a];
            if a < |s.additions| then r == s.additions[a].(pending := r.pending)
            else r.at == s.now && r.live == Lookup(s.tables, r.k, false).Some?
  {
  }

  /** An addition knows what a live reader knew when it read. */
  lemma {:induction false} AdditionsRead(t: Tables, steps: seq<Step>, a: nat)
    requires a < |RunFrom(t, steps).additions|
    ensures var r := RunFrom(t, steps).additions[a];
            r.at < |steps| && r.live == Lookup(RunFrom(t, steps[..r.at]).tables, r.k, false).Some?
  {
    var m := |steps| - 1;
    var s := RunFrom(t, steps[..m]);
    InterleavingIsStoreRun(t, steps[..m]);
    NextAdditions(s, steps[m], a);
    if a < |s.additions| {
      AdditionsRead(t, steps[..m], a);
      assert steps[..m][..s.additions[a].at] == steps[..s.additions[a].at];
    }
  }

  /** A write takes effect: it leaves its value as a draft. */
  predicate Lands(s: State, step: Step)
    requires step.Write? && CanWrite(s, step.a)
  {
    StoreRuns.Step(s.tables, Issued(s, step)[0]).1
  }

  /** The write itself: it lands when the row is there exactly if it was seen live, or changes nothing. */
  lemma LandsIff(s: State, write: Step)
    requires write.Write? && CanWrite(s, write.a)
    ensures var r, t' := s.additions[write.a], Next(s, write).tables;
            && (Lands(s, write) <==> (r.live <==> r.k in s.tables.configs))
            && (if Lands(s, write) then
                  r.k in t'.configs && t'.configs[r.k].value == write.value && t'.configs[r.k].status == "draft"
                else t' == s.tables)
  {
  }

  /** What an addition saw, in terms of the operations before its read. */
  lemma SawLiveSinceWrite(steps: seq<Step>, a: nat)
    requires a < |RunFrom(EMPTY, steps).additions|
    ensures var r := RunFrom(EMPTY, steps).additions[a];
            && r.at < |steps|
            && var earlier := Lower(EMPTY, steps[..r.at]);
            (r.live <==> r.k in StoreRuns.Run(earlier).configs && StoreRuns.LiveSinceWrite(earlier, r.k))
  {
    var r := RunFrom(EMPTY, steps).additions[a];
    AdditionsRead(EMPTY, steps, a);
    InterleavingIsStoreRun(EMPTY, steps[..r.at]);
    StoreRuns.LiveReaderSeesLastWrite(Lower(EMPTY, steps[..r.at]), r.k, false);
  }

  /**
   * In every interleaving an addition takes effect if and only if it read a live row and finds one, or
   * read none and finds none; then its value is the row's, as a draft, and otherwise no table changes.
   * What it read is settled by the operations before its read: a row that was made live at or after its
   * last write.
   */
  lemma DraftLandsIff(steps: seq<Step>, write: Step)
    requires write.Write? && CanWrite(RunFrom(EMPTY, steps), write.a)
    ensures RunFrom(EMPTY, steps).additions[write.a].at < |steps|
    ensures var s := RunFrom(EMPTY, steps);
            var r, t' := s.additions[write.a], Next(s, write).tables;
            var earlier := Lower(EMPTY, steps[..r.at]);
            && (Lands(s, write) <==>
                ((r.k in StoreRuns.Run(earlier).configs && StoreRuns.LiveSinceWrite(earlier, r.k))
                 <==> r.k in s.tables.configs))
            && (if Lands(s, write) then
                  r.k in t'.configs && t'.configs[r.k].value == write.value && t'.configs[r.k].status == "draft"
                else t' == s.tables)
  {
    SawLiveSinceWrite(steps, write.a);
    LandsIff(RunFrom(EMPTY, steps), write);
  }

  // Additions to one key, with nothing else touching it.

  /** The step is no other call that writes, deletes or publishes the row. */
  predicate LeavesAlone(step: Step, k: RowKey) {
    step.Other? ==>
      match step.op
      case Create(k', _, _, _) => k' != k
      case Update(k', _, _, _, _) => k' != k
      case Delete(k', _, _, _) => k' != k
      case Publish(ns, _, _, _, fails) => ns != k.ns || fails
      case _ => true
  }

  predicate WritesKey(s: State, step: Step, k: RowKey) {
    step.Write? && CanWrite(s, step.a) && s.additions[step.a].k == k
  }

  /** Some addition to the key has written. */
  predicate Written(t: Tables, steps: seq<Step>, k: RowKey) {
    steps != [] &&
      var m := |steps| - 1;
      Written(t, steps[..m], k) || WritesKey(RunFrom(t, steps[..m]), steps[m], k)
  }

  /** The row as additions find it: as it was until the first of them writes, and a draft from then on. */
  ghost predicate Settled(t: Tables, s: State, k: RowKey, written: bool) {
    if written then k in s.tables.configs && s.tables.configs[k].status == "draft"
    else (k in s.tables.configs <==> k in t.configs)
         && (k in t.configs ==> s.tables.configs[k].status == t.configs[k].status)
  }

  /** What an addition can know of a row that only additions touch. */
  predicate Informed(t: Tables, r: Addition, written: bool) {
    && (r.live ==> Lookup(t, r.k, false).Some?)
    && (!r.live && Lookup(t, r.k, false).Some? ==> written)
  }

  lemma NextSettled(t: Tables, s: State, step: Step, k: RowKey, written: bool)
    requires Settled(t, s, k, written) && LeavesAlone(step, k)
    requires WritesKey(s, step, k) ==> Informed(t, s.additions[step.a], written)
    ensures Settled(t, Next(s, step), k, written || WritesKey(s, step, k))
  {
  }

  lemma {:induction false} RunSettled(t: Tables, steps: seq<Step>, k: RowKey)
    requires forall i :: 0 <= i < |steps| ==> LeavesAlone(steps[i], k)
    ensures Settled(t, RunFrom(t, steps), k, Written(t, steps, k))
    decreases |steps|, 0
  {
    if steps != [] {
      var m := |steps| - 1;
      var s := RunFrom(t, steps[..m]);
      RunSettled(t, steps[..m], k);
      if WritesKey(s, steps[m], k) {
        WriterInformed(t, steps[..m], k, steps[m].a);
      }
      NextSettled(t, s, steps[m], k, Written(t, steps[..m], k));
    }
  }

  lemma WriterInformed(t: Tables, steps: seq<Step>, k: RowKey, a: nat)
    requires forall i :: 0 <= i < |steps| ==> LeavesAlone(steps[i], k)
    requires a < |RunFrom(t, steps).additions| && RunFrom(t, steps).additions[a].k == k
    ensures Informed(t, RunFrom(t, steps).additions[a], Written(t, steps, k))
    decreases |steps|, 2
  {
    SawLiveIff(t, steps, k, a);
    WrittenGrows(t, steps, RunFrom(t, steps).additions[a].at, k);
  }

  /** An addition to the key saw it live exactly when it was live at first and nobody had written yet. */
  lemma SawLiveIff(t: Tables, steps: seq<Step>, k: RowKey, a: nat)
    requires forall i :: 0 <= i < |steps| ==> LeavesAlone(steps[i], k)
    requires a < |RunFrom(t, steps).additions| && RunFrom(t, steps).additions[a].k == k
    ensures var r := RunFrom(t, steps).additions[a];
            r.at < |steps| && (r.live <==> Lookup(t, k, false).Some? && !Written(t, steps[..r.at], k))
    decreases |steps|, 1
  {
    AdditionsRead(t, steps, a);
    RunSettled(t, steps[..RunFrom(t, steps).additions[a].at], k);
  }

  lemma {:induction false} WrittenGrows(t: Tables, steps: seq<Step>, n: nat, k: RowKey)
    requires n <= |steps|
    ensures Written(t, steps[..n], k) ==> Written(t, steps, k)
  {
    if n < |steps| {
      WrittenGrows(t, steps[..|steps| - 1], n, k);
      assert steps[..|steps| - 1][..n] == steps[..n];
    } else {
      assert steps[..n] == steps;
    }
  }

  /**
   * However the additions to a key overlap, with nothing else touching it: from a live row exactly
   * those take effect that read before the first of them wrote, so a later draft can replace an earlier;
   * from an absent row exactly the first that writes; over a draft none.
   */
  lemma OverlappingDrafts(t: Tables, steps: seq<Step>, k: RowKey, write: Step)
    requires forall i :: 0 <= i < |steps| ==> LeavesAlone(steps[i], k)
    requires write.Write? && WritesKey(RunFrom(t, steps), write, k)
    ensures RunFrom(t, steps).additions[write.a].at < |steps|
    ensures var s := RunFrom(t, steps);
            var at := s.additions[write.a].at;
            && (Lands(s, write) <==>
                if Lookup(t, k, false).Some? then !Written(t, steps[..at], k)
                else k !in t.configs && !Written(t, steps, k))
  {
    RunSettled(t, steps, k);
    SawLiveIff(t, steps, k, write.a);
    WrittenGrows(t, steps, RunFrom(t, steps).additions[write.a].at, k);
  }

  /** Two callers that both read a live row before either writes: the second replaces the first's draft. */
  lemma SecondDraftReplacesFirst(t: Tables, k: RowKey, first: string, second: string, operator: string, ts: string)
    requires Lookup(t, k, false).Some?
    ensures var steps := [Read(k), Read(k), Write(0, first, operator, ts)];
            var s, write := RunFrom(t, steps), Write(1, second, operator, ts);
            && CanWrite(s, 1) && Lands(s, write)
            && k in s.tables.configs && s.tables.configs[k].value == first
            && k in Next(s, write).tables.configs && Next(s, write).tables.configs[k].value == second
  {
    var steps := [Read(k), Read(k), Write(0, first, operator, ts)];
    assert steps[..2][..1] == steps[..1] && steps[..1][..0] == [];
    assert RunFrom(t, steps[..1][..0]) == State(t, [], 0);
    assert RunFrom(t, steps[..1]) == State(t, [Addition(k, true, 0, true)], 1);
    assert RunFrom(t, steps[..2]) == State(t, [Addition(k, true, 0, true), Addition(k, true, 1, true)], 2);
  }
}
