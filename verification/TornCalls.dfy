/**
 * What is left of a call when a window of a grayscale publish opens or closes between its statements,
 * and what becomes of the audit trail.
 */
module TornCalls {
  import opened Seqs
  import opened ConfigTables
  import opened StatementRuns
  import opened StoreRuns

  predicate IsWrite(op: Op) { op.Create? || op.Update? }

  /** The running call has inserted its version entry but not yet its log entry. */
  predicate Midway(c: Call) { c.Busy? && IsWrite(c.op) && c.done == 2 }

  function One(b: bool): nat { if b then 1 else 0 }

  // The audit trail over runs: how far the version entries and the log entries drift apart.

  /** Whether the open transaction was opened midway through a write, after one more event. */
  predicate OpenedAfter(s: State, e: Event, before: bool) {
    if s.transaction.Closed? && !StatementRuns.Next(s, e).transaction.Closed? then Midway(s.call) else before
  }

  predicate OpenedMidway(events: seq<Event>) {
    events != [] &&
      var m := |events| - 1;
      OpenedAfter(StatementRuns.Run(events[..m]), events[m], OpenedMidway(events[..m]))
  }

  /** The event rolls a window back. */
  predicate RollsBack(s: State, e: Event) { e.Rollback? && s.transaction.Window? }

  /** How many windows that were rolled back had opened midway through a write. */
  function OpenCuts(events: seq<Event>): nat {
    if events == [] then 0 else
      var m := |events| - 1;
      OpenCuts(events[..m])
      + One(RollsBack(StatementRuns.Run(events[..m]), events[m]) && OpenedMidway(events[..m]))
  }

  /** How many windows were rolled back midway through a write. */
  function CloseCuts(events: seq<Event>): nat {
    if events == [] then 0 else
      var m := |events| - 1;
      var s := StatementRuns.Run(events[..m]);
      CloseCuts(events[..m]) + One(RollsBack(s, events[m]) && Midway(s.call))
  }

  /** Version entries in excess of log entries. */
  function Excess(t: Tables): int { |t.versions| - |Changes(t)| }

  function Weight(st: Statement): int {
    if st.AddVersion? then 1 else if st.AddLog? && st.l.operation != "delete" then -1 else 0
  }

  lemma ExecExcess(t: Tables, st: Statement)
    ensures Excess(Exec(t, st)) == Excess(t) + Weight(st)
  {
    if st.AddLog? { LogSnoc(t, Exec(t, st), st.l); }
  }

  /** A statement moves the excess exactly as it moves the call in or out of the middle of a write. */
  lemma AdvanceExcess(s: State)
    requires Ok(s)
    ensures var s' := StatementRuns.Next(s, Advance);
            Excess(s'.tables) - One(Midway(s'.call)) == Excess(s.tables) - One(Midway(s.call))
  {
    var todo := Todo(s.call);
    if todo != [] {
      ExecExcess(s.tables, todo[0]);
      WeightMoves(s.call);
    }
  }

  lemma WeightMoves(c: Call)
    requires c.Busy? && c.done < |Program(c.op, c.row)| && (c.op.Update? ==> c.row.Some?)
    ensures Weight(Todo(c)[0]) == One(Midway(Onward(c))) - One(Midway(c))
    ensures Todo(c)[0].InsertRow? || Todo(c)[0].Commit? ==> !Midway(c)
  {
  }

  /** `drift` is what the windows so far have added to the excess. */
  ghost predicate Drifted(s: State, cutOpen: bool, drift: int) {
    && Excess(s.tables) == One(Midway(s.call)) + drift
    && (!s.transaction.Closed? ==> Excess(s.transaction.base) == One(cutOpen) + drift)
    && (s.transaction.Publishing? ==> !cutOpen)
  }

  lemma NextDrifted(s: State, e: Event, cutOpen: bool, drift: int)
    requires Ok(s) && Drifted(s, cutOpen, drift)
    ensures Drifted(StatementRuns.Next(s, e), OpenedAfter(s, e, cutOpen),
                    drift + if RollsBack(s, e) then One(cutOpen) - One(Midway(s.call)) else 0)
  {
    if e.Advance? { AdvanceExcess(s); }
  }

  lemma {:induction false} RunDrifted(events: seq<Event>)
    ensures Drifted(StatementRuns.Run(events), OpenedMidway(events), OpenCuts(events) - CloseCuts(events))
  {
    if events != [] {
      var m := |events| - 1;
      RunDrifted(events[..m]);
      RunOk(events[..m]);
      NextDrifted(StatementRuns.Run(events[..m]), events[m], OpenedMidway(events[..m]),
                  OpenCuts(events[..m]) - CloseCuts(events[..m]));
    }
  }

  // The entries themselves.

  /** Versions and log entries match, but for the version entry whose log entry is still to come. */
  ghost predicate MatchedSoFar(t: Tables, c: Call) {
    if Midway(c) then Todo(c) != [] && Todo(c)[0].AddLog? && MatchedBut(t, Todo(c)[0].l)
    else Matched(Changes(t), t.versions)
  }

  ghost predicate MatchedBut(t: Tables, l: ChangeLog) {
    var n := |t.versions|;
    n > 0 && Matched(Changes(t), t.versions[..n - 1]) && l.operation != "delete" && Describes(l, t.versions[n - 1])
  }

  lemma LogCompletes(t: Tables, l: ChangeLog)
    requires MatchedBut(t, l)
    ensures Matched(Changes(Exec(t, AddLog(l))), t.versions)
  {
    LogSnoc(t, Exec(t, AddLog(l)), l);
  }

  lemma VersionAwaits(t: Tables, v: Version, l: ChangeLog)
    requires Matched(Changes(t), t.versions) && Describes(l, v) && l.operation != "delete"
    ensures MatchedBut(Exec(t, AddVersion(v)), l)
  {
    assert (t.versions + [v])[..|t.versions|] == t.versions;
  }

  /** Statements other than a version entry or the log entry of a change leave both tables' match alone. */
  lemma OthersKeepMatch(t: Tables, st: Statement)
    requires Weight(st) == 0
    ensures Changes(Exec(t, st)) == Changes(t) && Exec(t, st).versions == t.versions
  {
    if st.AddLog? { LogSnoc(t, Exec(t, st), st.l); }
  }

  lemma AdvanceMatched(s: State)
    requires Ok(s) && MatchedSoFar(s.tables, s.call)
    ensures MatchedSoFar(StatementRuns.Next(s, Advance).tables, StatementRuns.Next(s, Advance).call)
  {
    var todo := Todo(s.call);
    if todo != [] {
      var s' := StatementRuns.Next(s, Advance);
      if Midway(s.call) {
        LogCompletes(s.tables, todo[0].l);
      } else if todo[0].AddVersion? {
        assert IsWrite(s.call.op) && s.call.done == 1 && Todo(s'.call) == todo[1..];
        VersionAwaits(s.tables, todo[0].v, todo[1].l);
      } else {
        assert Weight(todo[0]) == 0 && !Midway(s'.call);
        OthersKeepMatch(s.tables, todo[0]);
      }
    }
  }

  /** The tables match so far, and so do the saved ones unless their write was cut. */
  ghost predicate TrailOk(s: State, cutOpen: bool) {
    && MatchedSoFar(s.tables, s.call)
    && (!s.transaction.Closed? && !cutOpen ==> Matched(Changes(s.transaction.base), s.transaction.base.versions))
    && (s.transaction.Publishing? ==> !cutOpen)
  }

  lemma NextTrailOk(s: State, e: Event, cutOpen: bool)
    requires Ok(s) && TrailOk(s, cutOpen)
    requires RollsBack(s, e) ==> !cutOpen && !Midway(s.call)
    ensures TrailOk(StatementRuns.Next(s, e), OpenedAfter(s, e, cutOpen))
  {
    if e.Advance? { AdvanceMatched(s); }
  }

  lemma {:induction false} RunTrailOk(events: seq<Event>)
    requires OpenCuts(events) == 0 && CloseCuts(events) == 0
    ensures TrailOk(StatementRuns.Run(events), OpenedMidway(events))
  {
    if events != [] {
      var m := |events| - 1;
      RunTrailOk(events[..m]);
      RunOk(events[..m]);
      NextTrailOk(StatementRuns.Run(events[..m]), events[m], OpenedMidway(events[..m]));
    }
  }

  /**
   * Conservation, over every interleaving: version entries exceed log entries by the windows opened
   * midway through a write, less those rolled back midway through one. So with the mutex free the two
   * are equally many exactly when these balance; and without such windows they match one for one.
   */
  lemma AuditTrailDrift(events: seq<Event>)
    requires StatementRuns.Run(events).call.Free?
    ensures var t := StatementRuns.Run(events).tables;
            && |t.versions| + CloseCuts(events) == |Changes(t)| + OpenCuts(events)
            && (OpenCuts(events) == 0 && CloseCuts(events) == 0 ==> Matched(Changes(t), t.versions))
            && (Matched(Changes(t), t.versions) ==> OpenCuts(events) == CloseCuts(events))
  {
    RunDrifted(events);
    if OpenCuts(events) == 0 && CloseCuts(events) == 0 { RunTrailOk(events); }
  }

  // One cut.

  /** The running call goes on to its end, undisturbed. */
  function Settled(s: State): State
    decreases |Todo(s.call)|
  {
    if Todo(s.call) == [] then s else Settled(StatementRuns.Next(s, Advance))
  }

  lemma {:induction false} SettledTables(s: State)
    requires Ok(s) && !s.transaction.Publishing?
    ensures Settled(s) == State(Finish(s.tables, Todo(s.call)), s.transaction, Free)
    decreases |Todo(s.call)|
  {
    if s.call.Busy? {
      var todo := Todo(s.call);
      NextOk(s, Advance);
      if !Refused(s.tables, todo[0]) { assert Todo(Onward(s.call)) == todo[1..]; }
      SettledTables(StatementRuns.Next(s, Advance));
    }
  }

  /** A rollback inside a call leaves the saved tables with the rest of the call on top. */
  lemma RollbackLeaves(s: State)
    requires Ok(s) && s.transaction.Window?
    ensures Settled(StatementRuns.Next(s, Rollback))
            == State(Finish(s.transaction.base, Todo(s.call)), Closed, Free)
  {
    SettledTables(StatementRuns.Next(s, Rollback));
  }

  function From(s: State, events: seq<Event>): State {
    if events == [] then s else StatementRuns.Next(From(s, events[..|events| - 1]), events[|events| - 1])
  }

  /** A begin inside a call leaves, once rolled back, what the call had done by then and no more. */
  lemma {:induction false} BeginLeaves(s: State, events: seq<Event>)
    requires Ok(s) && s.transaction.Closed? && Rollback !in events
    ensures var windowed := From(StatementRuns.Next(s, Begin), events);
            && Ok(windowed) && windowed.transaction == Window(s.tables)
            && StatementRuns.Next(windowed, Rollback).tables == s.tables
  {
    if events != [] {
      var m := |events| - 1;
      BeginLeaves(s, events[..m]);
      NextOk(From(StatementRuns.Next(s, Begin), events[..m]), events[m]);
      assert events[m] in events;
    }
  }

  lemma ExecPrefix(t: Tables, p: seq<Statement>)
    requires |p| == 3
    ensures ExecAll(t, p[..0]) == t
    ensures ExecAll(t, p[..1]) == Exec(t, p[0])
    ensures ExecAll(t, p[..2]) == Exec(Exec(t, p[0]), p[1])
    ensures ExecAll(t, p[..3]) == Exec(Exec(Exec(t, p[0]), p[1]), p[2])
  {
    assert p[..1][..0] == [] && p[..2][..1] == p[..1] && p[..3][..2] == p[..2] && p[..0] == [];
    assert ExecAll(t, p[..0]) == t;
    assert ExecAll(t, p[..1]) == Exec(t, p[0]);
    assert ExecAll(t, p[..2]) == Exec(ExecAll(t, p[..1]), p[1]);
  }

  /** Nothing of the operation took place, or all of it. */
  predicate Atomic(before: Tables, op: Op, after: Tables) { after == before || after == Step(before, op).0 }

  /** The last change logged for the row. */
  predicate LastLogged(t: Tables, k: RowKey, version: int, value: string) {
    var es := ChangesAt(t, k);
    es != [] && es[|es| - 1].version == version && es[|es| - 1].newValue == value
  }

  /**
   * A write after `n` of whose statements a window opens. The log still matches the versions exactly
   * when the window does not open between their inserts, and the write is whole or absent exactly when
   * it opens before the first statement or after the last. So it is for the chain of the row's log
   * entries, except that a cut create goes unnoticed when the row's last life ended where this begins.
   */
  lemma TornByBegin(t: Tables, op: Op, n: nat)
    requires IsWrite(op) && Writes(t, op, op.k) && n <= 3
    requires Matched(Changes(t), t.versions) && Chained(t, op.k)
    ensures var torn := ExecAll(t, Program(op, Read(t, op))[..n]);
            && (Matched(Changes(torn), torn.versions) <==> n != 2)
            && (Atomic(t, op, torn) <==> n == 0 || n == 3)
            && (Chained(torn, op.k) <==> n == 0 || n == 3 || (op.Create? && LastLogged(t, op.k, 1, op.value)))
  {
    var p := Program(op, Read(t, op));
    var torn := ExecAll(t, p[..n]);
    ExecPrefix(t, p);
    FinishThree(t, p[0], p[1], p[2]);
    StatementsMakeStep(t, op);
    assert p[..3] == p;
    if n == 3 {
      StepMatched(t, op);
      StepChained(t, op, op.k);
    } else if n > 0 {
      assert torn.logs == t.logs && torn.configs == t.configs[op.k := p[0].row];
      assert torn.configs[op.k] == p[0].row;
    }
  }

  // A rollback inside a call.

  /** A log entry on top of a chained log chains if it links to the last and agrees with the row. */
  lemma ChainSnoc(t: Tables, t': Tables, e: ChangeLog)
    requires t'.logs == t.logs + [e] && e.operation != "delete"
    requires forall i :: 0 <= i < |ChangesAt(t, e.at)| ==> Linked(ChangesAt(t, e.at), i)
    ensures Chained(t', e.at) <==>
            && Linked(ChangesAt(t, e.at) + [e], |ChangesAt(t, e.at)|)
            && (e.at in t'.configs ==> e.version == t'.configs[e.at].version && e.newValue == t'.configs[e.at].value)
  {
    var es, es' := ChangesAt(t, e.at), ChangesAt(t, e.at) + [e];
    LogSnoc(t, t', e);
    forall i | 0 <= i < |es| ensures Linked(es', i) { assert Linked(es, i); }
  }

  /** The restored row differs from the one the update read in nothing but what the update overwrites. */
  predicate SameBasis(base: Tables, k: RowKey, row: Row) {
    && k in base.configs
    && base.configs[k].value == row.value && base.configs[k].version == row.version
    && base.configs[k].createdAt == row.createdAt
  }

  /** When the chain survives a rollback after `n` statements of a write that read `row`. */
  predicate StaysChained(base: Tables, op: Op, row: Option<Row>, n: nat)
    requires IsWrite(op) && (op.Update? ==> row.Some?)
  {
    if n == 3 then true
    else if op.Create? then
      n == 0 || (op.k in base.configs ==> base.configs[op.k].version == 1 && base.configs[op.k].value == op.value)
    else LastLogged(base, op.k, row.value.version, row.value.value) && (n == 0 || op.k !in base.configs)
  }

  /** The tables a rollback after `n` statements leaves, from those it restored. */
  lemma TornTables(base: Tables, op: Op, row: Option<Row>, n: nat)
    requires IsWrite(op) && (op.Update? ==> row.Some?) && n <= 3
    ensures var p := Program(op, row);
            var torn := Finish(base, p[n..]);
            && |p| == 3
            && (n == 3 ==> torn == base)
            && (n == 2 ==> torn == Exec(base, p[2]))
            && (n == 1 ==> torn == Exec(Exec(base, p[1]), p[2]))
            && (n == 0 ==> torn == if Refused(base, p[0]) then base else Exec(Exec(Exec(base, p[0]), p[1]), p[2]))
  {
    var p := Program(op, row);
    FinishThree(base, p[0], p[1], p[2]);
    assert p[0..] == p && p[1..] == [p[1], p[2]] && p[2..] == [p[2]] && p[3..] == [];
  }

  /** The log and version entries the rest of the write appends: both, the log entry alone, or none. */
  lemma TornTrail(base: Tables, op: Op, row: Option<Row>, n: nat)
    requires IsWrite(op) && (op.Update? ==> row.Some?) && n <= 3
    ensures var p := Program(op, row);
            var torn := Finish(base, p[n..]);
            if n == 3 || (n == 0 && Refused(base, p[0])) then torn == base
            else torn.logs == base.logs + [p[2].l]
                 && torn.versions == (if n == 2 then base.versions else base.versions + [p[1].v])
  {
    TornTables(base, op, row, n);
  }

  lemma RollbackMatched(base: Tables, op: Op, row: Option<Row>, n: nat)
    requires IsWrite(op) && (op.Update? ==> row.Some?) && n <= 3 && Matched(Changes(base), base.versions)
    ensures var torn := Finish(base, Program(op, row)[n..]);
            Matched(Changes(torn), torn.versions) <==> n != 2
  {
    var p := Program(op, row);
    TornTrail(base, op, row, n);
    AppendedMatch(base, Finish(base, p[n..]), p[1].v, p[2].l);
  }

  lemma AppendedMatch(t: Tables, t': Tables, v: Version, l: ChangeLog)
    requires Matched(Changes(t), t.versions) && Describes(l, v) && l.operation != "delete"
    ensures t'.logs == t.logs + [l] && t'.versions == t.versions + [v] ==> Matched(Changes(t'), t'.versions)
    ensures t'.logs == t.logs + [l] && t'.versions == t.versions ==> !Matched(Changes(t'), t'.versions)
  {
    if t'.logs == t.logs + [l] { LogSnoc(t, t', l); }
  }

  /** What the rest of the write does to its row. */
  lemma TornRow(base: Tables, op: Op, row: Option<Row>, n: nat)
    requires IsWrite(op) && (op.Update? ==> row.Some?) && n < 3
    ensures Finish(base, Program(op, row)[n..]).configs
            == if n == 0 then Exec(base, Program(op, row)[0]).configs else base.configs
  {
    TornTables(base, op, row, n);
  }

  lemma UpdateChains(base: Tables, torn: Tables, k: RowKey, row: Row, l: ChangeLog, updated: bool)
    requires Chained(base, k) && torn.logs == base.logs + [l]
    requires l.at == k && l.operation == "update" && l.version == row.version + 1 && l.oldValue == row.value
    requires k in torn.configs <==> k in base.configs
    requires k in base.configs ==>
               if updated then torn.configs[k].version == l.version && torn.configs[k].value == l.newValue
               else torn.configs[k] == base.configs[k]
    ensures Chained(torn, k) <==> LastLogged(base, k, row.version, row.value) && (updated || k !in base.configs)
  {
    ChainSnoc(base, torn, l);
  }

  lemma CreateChains(base: Tables, torn: Tables, k: RowKey, l: ChangeLog)
    requires Chained(base, k) && torn.logs == base.logs + [l]
    requires l.at == k && l.operation == "create" && l.version == 1 && l.oldValue == ""
    ensures Chained(torn, k) <==>
            (k in torn.configs ==> torn.configs[k].version == 1 && torn.configs[k].value == l.newValue)
  {
    ChainSnoc(base, torn, l);
  }

  lemma RollbackChained(base: Tables, op: Op, row: Option<Row>, n: nat)
    requires IsWrite(op) && (op.Update? ==> row.Some?) && n <= 3 && Chained(base, op.k)
    ensures Chained(Finish(base, Program(op, row)[n..]), op.k) <==> StaysChained(base, op, row, n)
  {
    var p := Program(op, row);
    var torn := Finish(base, p[n..]);
    TornTrail(base, op, row, n);
    if n < 3 && torn.logs != base.logs {
      TornRow(base, op, row, n);
      if op.Create? {
        CreateChains(base, torn, op.k, p[2].l);
      } else {
        UpdateChains(base, torn, op.k, row.value, p[2].l, n == 0);
      }
    }
  }

  lemma RollbackAtomic(base: Tables, op: Op, row: Option<Row>, n: nat)
    requires IsWrite(op) && (op.Update? ==> row.Some?) && n <= 3
    ensures Atomic(base, op, Finish(base, Program(op, row)[n..])) <==>
            n == 3 || (n == 0 && (op.Create? || SameBasis(base, op.k, row.value)))
  {
    var p := Program(op, row);
    var torn, whole := Finish(base, p[n..]), Step(base, op).0;
    TornTables(base, op, row, n);
    if n == 1 || n == 2 {
      assert torn.configs == base.configs && |torn.logs| == |base.logs| + 1;
      assert whole.logs == base.logs || op.k in whole.configs;
    } else if n == 0 && op.Update? {
      assert |torn.logs| == |base.logs| + 1;
      if op.k in base.configs {
        assert whole.configs[op.k].createdAt == base.configs[op.k].createdAt;
        assert torn.configs[op.k] == p[0].row;
        assert whole.logs[|base.logs|].oldValue == base.configs[op.k].value;
        assert torn.logs[|base.logs|].oldValue == row.value.value;
      }
    }
  }

  /**
   * A write that read `row` in a window that is rolled back, to tables of any kind, after `n` of its
   * statements; `base` is what other calls had made before the window and so may differ from what the
   * write saw. The log matches the versions exactly when the cut is not between their inserts; the
   * write is whole or absent in the restored tables exactly at its end, or at its start if it then
   * finds what it read; and the chain breaks exactly where `StaysChained` says.
   */
  lemma TornByRollback(base: Tables, op: Op, row: Option<Row>, n: nat)
    requires IsWrite(op) && (op.Update? ==> row.Some?) && n <= 3
    requires Matched(Changes(base), base.versions) && Chained(base, op.k)
    ensures var torn := Finish(base, Program(op, row)[n..]);
            && (Matched(Changes(torn), torn.versions) <==> n != 2)
            && (Chained(torn, op.k) <==> StaysChained(base, op, row, n))
            && (Atomic(base, op, torn) <==>
                n == 3 || (n == 0 && (op.Create? || SameBasis(base, op.k, row.value))))
  {
    RollbackMatched(base, op, row, n);
    RollbackChained(base, op, row, n);
    RollbackAtomic(base, op, row, n);
  }

  /** The chains of other rows are out of reach of a cut write. */
  lemma OtherRowsStayChained(base: Tables, op: Op, row: Option<Row>, n: nat, k: RowKey)
    requires IsWrite(op) && (op.Update? ==> row.Some?) && n <= 3 && k != op.k
    ensures Chained(Finish(base, Program(op, row)[n..]), k) <==> Chained(base, k)
  {
    var p := Program(op, row);
    var torn := Finish(base, p[n..]);
    TornTables(base, op, row, n);
    TornTrail(base, op, row, n);
    if torn != base { LogSnoc(base, torn, p[2].l); }
    assert ChangesAt(torn, k) == ChangesAt(base, k);
  }

  /**
   * A window on empty tables, a create inside it, and an update cut by the rollback after its first
   * statement: no row is left, but a version entry and an update in the log that continues nothing.
   */
  lemma CutUpdateBreaksChain(k: RowKey, value: string, operator: string, ts: string)
    ensures var create, update := Create(k, value, operator, ts), Update(k, value, operator, true, ts);
            var s1 := Settled(StatementRuns.Next(StatementRuns.Next(StatementRuns.START, Begin), Start(create)));
            var s2 := StatementRuns.Next(StatementRuns.Next(s1, Start(update)), Advance);
            var t := Settled(StatementRuns.Next(s2, Rollback)).tables;
            && t.configs == map[] && |t.versions| == 1 && |Changes(t)| == 1
            && Matched(Changes(t), t.versions) && !Chained(t, k)
  {
    var create, update := Create(k, value, operator, ts), Update(k, value, operator, true, ts);
    var s0 := StatementRuns.Next(StatementRuns.Next(StatementRuns.START, Begin), Start(create));
    SettledTables(s0);
    StatementsMakeStep(EMPTY, create);
    assert Program(create, None)[0..] == Program(create, None);
    var s1 := Settled(s0);
    assert s1 == State(Step(EMPTY, create).0, Window(EMPTY), Free);
    CutUpdateLeaves(s1, update);
  }

  /** On empty saved tables a rollback after the first statement of an update leaves just its entries. */
  lemma CutUpdateLeaves(s: State, op: Op)
    requires s.transaction == Window(EMPTY) && s.call.Free? && op.Update? && op.k in s.tables.configs
    ensures var cut := StatementRuns.Next(StatementRuns.Next(s, Start(op)), Advance);
            var t := Settled(StatementRuns.Next(cut, Rollback)).tables;
            && t.configs == map[] && |t.versions| == 1 && |Changes(t)| == 1
            && Matched(Changes(t), t.versions) && !Chained(t, op.k)
  {
    var cut := StatementRuns.Next(StatementRuns.Next(s, Start(op)), Advance);
    var row := Read(s.tables, op);
    assert cut.call == Busy(op, row, 1) && cut.transaction == Window(EMPTY);
    RollbackLeaves(cut);
    TornTables(EMPTY, op, row, 1);
    TornByRollback(EMPTY, op, row, 1);
  }

  // Deletions.

  predicate Removes(t: Tables, op: Op)
    requires op.Delete?
  {
    op.k in t.configs && (op.draft ==> t.configs[op.k].status == "draft")
  }

  lemma OneStatement(t: Tables, st: Statement)
    ensures ExecAll(t, [st]) == Exec(t, st)
    ensures !st.InsertRow? ==> Finish(t, [st]) == Exec(t, st)
  {
    assert [st][..0] == [] && [st][1..] == [];
    assert ExecAll(t, [st][..0]) == t;
  }

  lemma DeletePieces(t: Tables, op: Op)
    requires op.Delete?
    ensures var p := Program(op, None);
            ExecAll(t, p[..1]) == Exec(t, p[0]) && Finish(t, p[1..]) == Exec(t, p[1])
  {
    var p := Program(op, None);
    assert p[..1] == [p[0]] && p[1..] == [p[1]];
    OneStatement(t, p[0]);
    OneStatement(t, p[1]);
  }

  /** Rows may go and deletions be logged: changes and versions being the same, so is the trail. */
  lemma TrailKept(t: Tables, t': Tables, k: RowKey)
    requires Matched(Changes(t), t.versions) && Chained(t, k)
    requires Changes(t') == Changes(t) && ChangesAt(t', k) == ChangesAt(t, k) && t'.versions == t.versions
    requires k in t'.configs ==> k in t.configs && t'.configs[k] == t.configs[k]
    ensures Matched(Changes(t'), t'.versions) && Chained(t', k)
  {
  }

  /** The two statements of a deletion, each on its own. */
  lemma DeleteEffects(t: Tables, op: Op, begun: Tables, rolledBack: Tables)
    requires op.Delete? && begun == Exec(t, Program(op, None)[0]) && rolledBack == Exec(t, Program(op, None)[1])
    ensures begun.logs == t.logs && (op.k in begun.configs <==> op.k in t.configs && !Removes(t, op))
    ensures rolledBack.configs == t.configs
    ensures rolledBack.logs == t.logs + [ChangeLog(op.k.ns + ":" + op.k.key, op.k, 0, "", "", "delete",
                                                   op.operator, op.ts)]
    ensures Atomic(t, op, begun) <==> !Removes(t, op)
    ensures Atomic(t, op, rolledBack) <==> !Removes(t, op)
  {
    var whole := Step(t, op).0;
    assert |whole.logs| == |t.logs| + 1;
    assert Removes(t, op) ==> op.k !in whole.configs && op.k in t.configs;
  }

  /**
   * A deletion cut between its two statements: a begin leaves a removal nobody logged, a rollback a
   * logged deletion of a row that stands. The deletion is whole or absent exactly when there was
   * nothing to remove.
   */
  lemma TornDelete(t: Tables, op: Op)
    requires op.Delete?
    ensures var p := Program(op, None);
            var begun, rolledBack := ExecAll(t, p[..1]), Finish(t, p[1..]);
            && begun.logs == t.logs && (op.k in begun.configs <==> op.k in t.configs && !Removes(t, op))
            && rolledBack.configs == t.configs
            && rolledBack.logs == t.logs + [ChangeLog(op.k.ns + ":" + op.k.key, op.k, 0, "", "", "delete",
                                                      op.operator, op.ts)]
            && (Atomic(t, op, begun) <==> !Removes(t, op)) && (Atomic(t, op, rolledBack) <==> !Removes(t, op))
  {
    var p := Program(op, None);
    DeletePieces(t, op);
    DeleteEffects(t, op, ExecAll(t, p[..1]), Finish(t, p[1..]));
  }

  /** Neither breaks the match or a chain. */
  lemma TornDeleteKeepsTrail(t: Tables, op: Op, k: RowKey)
    requires op.Delete? && Matched(Changes(t), t.versions) && Chained(t, k)
    ensures var p := Program(op, None);
            forall torn :: torn == ExecAll(t, p[..1]) || torn == Finish(t, p[1..]) ==>
              Matched(Changes(torn), torn.versions) && Chained(torn, k)
  {
    var p := Program(op, None);
    DeletePieces(t, op);
    LogSnoc(t, Exec(t, p[1]), p[1].l);
    TrailKept(t, Exec(t, p[0]), k);
    TrailKept(t, Exec(t, p[1]), k);
  }
}
