/**
 * The SQLite store statement by statement. A call holds the store's mutex, so calls do not overlap,
 * but the begin and the rollback of a grayscale publish take no lock and may fall between any two
 * statements of another caller's call.
 */
module StatementRuns {
  import opened Seqs
  import opened ConfigTables
  import TransactionWindows
  import StoreRuns

  datatype Statement =
    | InsertRow(k: RowKey, row: Row)
    | UpdateRow(k: RowKey, row: Row)
    | DeleteRow(k: RowKey, draftOnly: bool)
    | AddVersion(v: Version)
    | AddLog(l: ChangeLog)
    | AddRelease(release: Release)
    | RetireRelease(id: int)
    | MarkLive(ns: string)
    | InsertNextRelease(ns: string, note: string, operator: string, ts: string)
    | Commit

  /** The primary key refuses a second row; every other statement is accepted. */
  predicate Refused(t: Tables, st: Statement) { st.InsertRow? && st.k in t.configs }

  /** An update or deletion of a missing row does nothing. */
  function Exec(t: Tables, st: Statement): Tables {
    match st
    case InsertRow(k, row) => if k in t.configs then t else t.(configs := t.configs[k := row])
    case UpdateRow(k, row) => if k in t.configs then t.(configs := t.configs[k := row]) else t
    case DeleteRow(k, draftOnly) =>
      if k in t.configs && (draftOnly ==> t.configs[k].status == "draft") then t.(configs := t.configs - {k}) else t
    case AddVersion(v) => t.(versions := t.versions + [v])
    case AddLog(l) => t.(logs := t.logs + [l])
    case AddRelease(release) => ReleaseCreated(t, release)
    case RetireRelease(id) => Retired(t, id)
    case MarkLive(ns) => t.(configs := AllLive(t.configs, ns))
    case InsertNextRelease(ns, note, operator, ts) =>
      t.(releases := t.releases + [NewRelease(t, ns, note, operator, ts)])
    case Commit => t
  }

  function ExecAll(t: Tables, sts: seq<Statement>): Tables {
    if sts == [] then t else Exec(ExecAll(t, sts[..|sts| - 1]), sts[|sts| - 1])
  }

  /** What a call still does to the tables: a refused insert ends it. */
  function Finish(t: Tables, todo: seq<Statement>): Tables
    decreases |todo|
  {
    if todo == [] || Refused(t, todo[0]) then t else Finish(Exec(t, todo[0]), todo[1..])
  }

  /** The row an update reads first; other calls read nothing that their statements depend on. */
  function Read(t: Tables, op: StoreRuns.Op): Option<Row> {
    if op.Update? && op.k in t.configs then Some(t.configs[op.k]) else None
  }

  /** The statements of a call, in order, from its arguments and the row it read. */
  function Program(op: StoreRuns.Op, row: Option<Row>): seq<Statement> {
    match op
    case Create(k, value, operator, ts) =>
      [InsertRow(k, Row(value, 1, "draft", ts, ts)),
       AddVersion(VersionEntry(k, 1, value, "create", operator, ts)),
       AddLog(LogEntry(k, 1, "", value, "create", operator, ts))]
    case Update(k, value, operator, draft, ts) =>
      if row.None? then [] else
        var version, status := row.value.version + 1, if draft then "draft" else "live";
        [UpdateRow(k, row.value.(value := value, version := version, status := status, updatedAt := ts)),
         AddVersion(VersionEntry(k, version, value, "update", operator, ts)),
         AddLog(LogEntry(k, version, row.value.value, value, "update", operator, ts))]
    case Delete(k, operator, draft, ts) =>
      [DeleteRow(k, draft), AddLog(LogEntry(k, 0, "", "", "delete", operator, ts))]
    case Publish(ns, note, operator, ts, _) => [MarkLive(ns), InsertNextRelease(ns, note, operator, ts), Commit]
    case AddRelease(release) => [AddRelease(release)]
    case Retire(id) => [RetireRelease(id)]
  }

  lemma WriteMakesStep(t: Tables, op: StoreRuns.Op)
    requires op.Create? || op.Update?
    ensures Finish(t, Program(op, Read(t, op))) == StoreRuns.Step(t, op).0
  {
    var p := Program(op, Read(t, op));
    if p != [] { FinishThree(t, p[0], p[1], p[2]); }
  }

  lemma PublishMakesStep(t: Tables, op: StoreRuns.Op)
    requires op.Publish?
    ensures Finish(t, Program(op, None)) == StoreRuns.Step(t, op.(fails := false)).0
  {
    var p := Program(op, None);
    FinishThree(t, p[0], p[1], p[2]);
  }

  /** Run without interruption, the statements are the operation. */
  lemma StatementsMakeStep(t: Tables, op: StoreRuns.Op)
    ensures Finish(t, Program(op, Read(t, op)))
            == StoreRuns.Step(t, if op.Publish? then op.(fails := false) else op).0
  {
    var p := Program(op, Read(t, op));
    if op.Create? || op.Update? {
      WriteMakesStep(t, op);
    } else if op.Publish? {
      PublishMakesStep(t, op);
    } else if op.Delete? {
      FinishThree(t, p[0], p[0], p[1]);
    } else {
      assert p[1..] == [];
    }
  }

  lemma FinishThree(t: Tables, a: Statement, b: Statement, c: Statement)
    requires !b.InsertRow? && !c.InsertRow?
    ensures Finish(t, [c]) == Exec(t, c)
    ensures Finish(t, [b, c]) == Exec(Exec(t, b), c)
    ensures Finish(t, [a, b, c]) == if Refused(t, a) then t else Exec(Exec(Exec(t, a), b), c)
  {
    assert [a, b, c][1..] == [b, c] && [b, c][1..] == [c] && [c][1..] == [];
    assert forall u :: Finish(u, [c]) == Exec(u, c);
    assert forall u :: Finish(u, [b, c]) == Finish(Exec(u, b), [c]);
  }

  // Runs.

  /** The call that holds the mutex, with the row it read and the number of statements it has executed. */
  datatype Call = Free | Busy(op: StoreRuns.Op, row: Option<Row>, done: nat)

  /** The transaction of the connection: a grayscale publish's window, or a publish's own. */
  datatype Transaction = Closed | Window(base: Tables) | Publishing(base: Tables)

  datatype State = State(tables: Tables, transaction: Transaction, call: Call)

  const START := State(EMPTY, Closed, Free)

  /** `Fault` is a database failure inside a publish, which its handler answers with a rollback. */
  datatype Event = Start(op: StoreRuns.Op) | Advance | Fault | Begin | Rollback

  function Todo(c: Call): seq<Statement> {
    if c.Free? then [] else
      var p := Program(c.op, c.row);
      if c.done <= |p| then p[c.done..] else []
  }

  /** The call after one more statement; after its last it gives the mutex back. */
  function Onward(c: Call): Call
    requires c.Busy?
  {
    if c.done + 1 < |Program(c.op, c.row)| then c.(done := c.done + 1) else Free
  }

  /**
   * A begin, of a grayscale publish or of a publish itself, throws while a transaction is open. The
   * rollback event is that of the grayscale publish whose window is open; there is none otherwise.
   */
  function Next(s: State, e: Event): State {
    match e
    case Start(op) =>
      if s.call.Busy? || (op.Update? && op.k !in s.tables.configs) then s
      else if !op.Publish? then s.(call := Busy(op, Read(s.tables, op), 0))
      else if s.transaction.Closed? then State(s.tables, Publishing(s.tables), Busy(op, None, 0))
      else s
    case Advance =>
      var todo := Todo(s.call);
      if todo == [] then s
      else if todo[0].Commit? then s.(transaction := Closed, call := Free)
      else if Refused(s.tables, todo[0]) then s.(call := Free)
      else s.(tables := Exec(s.tables, todo[0]), call := Onward(s.call))
    case Fault => if s.transaction.Publishing? then State(s.transaction.base, Closed, Free) else s
    case Begin => if s.transaction.Closed? then s.(transaction := Window(s.tables)) else s
    case Rollback => if s.transaction.Window? then s.(tables := s.transaction.base, transaction := Closed) else s
  }

  function Run(events: seq<Event>): State {
    if events == [] then START else Next(Run(events[..|events| - 1]), events[|events| - 1])
  }

  /** The statement an event executes on the tables, if any. */
  function Executed(s: State, e: Event): seq<Statement> {
    var todo := Todo(s.call);
    if e.Advance? && todo != [] && !todo[0].Commit? && !Refused(s.tables, todo[0]) then [todo[0]] else []
  }

  /** A publish holds its own transaction from its start to its commit, and nobody else commits. */
  ghost predicate Ok(s: State) {
    && (s.call.Busy? ==> s.call.done < |Program(s.call.op, s.call.row)|)
    && (s.transaction.Publishing? <==> s.call.Busy? && s.call.op.Publish?)
    && (s.transaction.Publishing? ==>
          s.tables == ExecAll(s.transaction.base, Program(s.call.op, None)[..s.call.done]) && s.call.row == None)
    && (s.call.Busy? && s.call.op.Update? ==> s.call.row.Some?)
  }

  lemma NextOk(s: State, e: Event)
    requires Ok(s)
    ensures Ok(Next(s, e))
  {
    if e.Advance? && s.transaction.Publishing? && s.call.done < 2 {
      var p, n := Program(s.call.op, None), s.call.done;
      assert p[..n + 1][..n] == p[..n];
    }
  }

  lemma {:induction false} RunOk(events: seq<Event>)
    ensures Ok(Run(events))
  {
    if events != [] {
      RunOk(events[..|events| - 1]);
      NextOk(Run(events[..|events| - 1]), events[|events| - 1]);
    }
  }

  // The tables of a run.

  /** The statements that stand, and those of the transaction still open. */
  datatype Trace = Trace(outside: seq<Statement>, inside: seq<Statement>)

  function TraceOf(events: seq<Event>): Trace {
    if events == [] then Trace([], []) else
      var m := |events| - 1;
      Traced(TraceOf(events[..m]), Run(events[..m]), events[m])
  }

  ghost predicate Explained(s: State, trace: Trace) {
    && s.tables == ExecAll(EMPTY, trace.outside + trace.inside)
    && (s.transaction.Closed? ==> trace.inside == [])
    && (!s.transaction.Closed? ==> s.transaction.base == ExecAll(EMPTY, trace.outside))
  }

  lemma ExecSnoc(t: Tables, sts: seq<Statement>, st: Statement)
    ensures ExecAll(t, sts + [st]) == Exec(ExecAll(t, sts), st)
  {
    assert (sts + [st])[..|sts|] == sts;
  }

  /**
   * In every interleaving of the statements of calls with the begins and rollbacks of grayscale
   * publishes, the tables are what the statements outside all windows make, followed by those of the
   * transaction that is open; the tables a rollback restores are what the statements outside make.
   */
  lemma {:induction false} TablesAreStatements(events: seq<Event>)
    ensures Explained(Run(events), TraceOf(events))
  {
    if events == [] {
      assert TraceOf(events).outside + TraceOf(events).inside == [];
    } else {
      var m := |events| - 1;
      var s, e, before := Run(events[..m]), events[m], TraceOf(events[..m]);
      TablesAreStatements(events[..m]);
      RunOk(events[..m]);
      NextExplained(s, e, before);
    }
  }

  /** The trace after one more event. */
  function Traced(before: Trace, s: State, e: Event): Trace {
    var done := Executed(s, e);
    if s.transaction.Closed? then before.(outside := before.outside + done)
    else if Next(s, e).transaction.Closed? then
      if e.Advance? then Trace(before.outside + before.inside, []) else before.(inside := [])
    else before.(inside := before.inside + done)
  }

  lemma ExecutedExplained(s: State, e: Event, before: Trace)
    requires Ok(s) && Explained(s, before) && Executed(s, e) != []
    ensures Explained(Next(s, e), Traced(before, s, e))
  {
    var st, all := Executed(s, e)[0], before.outside + before.inside;
    ExecSnoc(EMPTY, all, st);
    if s.transaction.Closed? {
      assert (before.outside + [st]) + [] == all + [st];
    } else {
      assert before.outside + (before.inside + [st]) == all + [st];
    }
  }

  lemma NextExplained(s: State, e: Event, before: Trace)
    requires Ok(s) && Explained(s, before)
    ensures Explained(Next(s, e), Traced(before, s, e))
  {
    if Executed(s, e) != [] {
      ExecutedExplained(s, e, before);
    } else {
      assert before.outside + [] == before.outside && before.inside + [] == before.inside;
      assert (before.outside + before.inside) + [] == before.outside + before.inside;
    }
  }

  // Calls that no boundary cuts.

  /** A window opens or closes while a call is between its statements. */
  predicate Cut(s: State, e: Event) {
    s.call.Busy? && ((e.Begin? && s.transaction.Closed?) || (e.Rollback? && s.transaction.Window?))
  }

  predicate Uncut(events: seq<Event>) {
    forall i :: 0 <= i < |events| ==> !Cut(Run(events[..i]), events[i])
  }

  /** What an event is call by call: a call counts at its start, a publish at its commit or fault. */
  function CallOf(s: State, e: Event): seq<TransactionWindows.Event> {
    match e
    case Start(op) =>
      if s.call.Busy? || (op.Publish? && s.transaction.Closed?) then [] else [TransactionWindows.Call(op)]
    case Advance =>
      if s.transaction.Publishing? && Next(s, e).transaction.Closed? && s.call.Busy? && s.call.op.Publish?
      then [TransactionWindows.Call(s.call.op.(fails := false))] else []
    case Fault =>
      if s.transaction.Publishing? && s.call.Busy? && s.call.op.Publish?
      then [TransactionWindows.Call(s.call.op.(fails := true))] else []
    case Begin => if s.transaction.Publishing? then [] else [TransactionWindows.Begin]
    case Rollback => if s.transaction.Publishing? then [] else [TransactionWindows.Rollback]
  }

  function CallsOf(events: seq<Event>): seq<TransactionWindows.Event> {
    if events == [] then [] else
      var m := |events| - 1;
      CallsOf(events[..m]) + CallOf(Run(events[..m]), events[m])
  }

  /** The call-by-call state is ahead by what the running call still has to do; a publish is behind. */
  ghost predicate Agrees(s: State, a: TransactionWindows.State) {
    match s.transaction
    case Closed => a.open.None? && a.tables == Finish(s.tables, Todo(s.call))
    case Window(base) =>
      a.open.Some? && a.open.value.tables == base && a.tables == Finish(s.tables, Todo(s.call))
    case Publishing(base) => a.open.None? && a.tables == base
  }

  lemma AdvanceAgrees(s: State, a: TransactionWindows.State)
    requires Ok(s) && Agrees(s, a) && !s.transaction.Publishing? && s.call.Busy?
    ensures Agrees(Next(s, Advance), a)
  {
    var todo := Todo(s.call);
    assert todo != [];
    assert Todo(Onward(s.call)) == todo[1..];
  }

  lemma BeforeCommit(t: Tables, op: StoreRuns.Op)
    requires op.Publish?
    ensures ExecAll(t, Program(op, None)[..2]) == StoreRuns.Step(t, op.(fails := false)).0
  {
    var p := Program(op, None);
    ExecSnoc(t, [], p[0]);
    ExecSnoc(t, [p[0]], p[1]);
    assert p[..2] == [p[0]] + [p[1]] && [p[0]] == [] + [p[0]];
  }

  lemma CommitAgrees(s: State, a: TransactionWindows.State)
    requires Ok(s) && Agrees(s, a) && s.transaction.Publishing? && s.call.done == 2
    ensures Agrees(Next(s, Advance), TransactionWindows.Next(a, TransactionWindows.Call(s.call.op.(fails := false))).0)
  {
    BeforeCommit(s.transaction.base, s.call.op);
  }

  lemma StartAgrees(s: State, a: TransactionWindows.State, op: StoreRuns.Op)
    requires Ok(s) && Agrees(s, a) && s.call.Free? && !op.Publish?
    ensures Agrees(Next(s, Start(op)), TransactionWindows.Next(a, TransactionWindows.Call(op)).0)
  {
    StatementsMakeStep(s.tables, op);
    var p := Program(op, Read(s.tables, op));
    assert p[0..] == p;
  }

  lemma NextAgrees(s: State, e: Event, a: TransactionWindows.State)
    requires Ok(s) && Agrees(s, a) && !Cut(s, e)
    ensures var calls := CallOf(s, e);
            Agrees(Next(s, e), if calls == [] then a else TransactionWindows.Next(a, calls[0]).0)
  {
    match e
    case Advance =>
      if s.transaction.Publishing? {
        if s.call.done == 2 { CommitAgrees(s, a); }
      } else if s.call.Busy? {
        AdvanceAgrees(s, a);
      }
    case Start(op) => if s.call.Free? && !op.Publish? { StartAgrees(s, a, op); }
    case _ =>
  }

  lemma UncutPrefix(events: seq<Event>, n: nat)
    requires Uncut(events) && n <= |events|
    ensures Uncut(events[..n])
  {
    forall i | 0 <= i < n ensures !Cut(Run(events[..n][..i]), events[..n][i]) {
      assert events[..n][..i] == events[..i];
    }
  }

  lemma RunMore(calls: seq<TransactionWindows.Event>, more: seq<TransactionWindows.Event>)
    requires |more| <= 1
    ensures TransactionWindows.Run(calls + more)
            == if more == [] then TransactionWindows.Run(calls)
               else TransactionWindows.Next(TransactionWindows.Run(calls), more[0]).0
  {
    if more == [] {
      assert calls + more == calls;
    } else {
      assert (calls + more)[..|calls|] == calls && (calls + more)[|calls|] == more[0];
    }
  }

  lemma {:induction false} UncutRunsAgree(events: seq<Event>)
    requires Uncut(events)
    ensures Agrees(Run(events), TransactionWindows.Run(CallsOf(events)))
  {
    if events != [] {
      var m := |events| - 1;
      UncutPrefix(events, m);
      UncutRunsAgree(events[..m]);
      RunOk(events[..m]);
      assert events[..m] == events[..|events| - 1] && !Cut(Run(events[..m]), events[m]);
      NextAgrees(Run(events[..m]), events[m], TransactionWindows.Run(CallsOf(events[..m])));
      RunMore(CallsOf(events[..m]), CallOf(Run(events[..m]), events[m]));
    }
  }

  /**
   * A run in which no window opens or closes inside a call is the run of its whole calls: whenever
   * the mutex is free the tables, and those to restore, are the ones of module TransactionWindows.
   * A publish is never cut, since it holds a transaction of its own.
   */
  lemma UncutRunsAreCallRuns(events: seq<Event>)
    requires Uncut(events) && Run(events).call.Free?
    ensures var s, a := Run(events), TransactionWindows.Run(CallsOf(events));
            && s.tables == a.tables
            && (s.transaction.Closed? <==> a.open.None?)
            && (s.transaction.Window? ==> s.transaction.base == a.open.value.tables)
  {
    RunOk(events);
    UncutRunsAgree(events);
  }
}
