/**
 * The SQLite store under grayscale publishes, call by call. Begin and rollback take no lock, and the
 * storage they act on is shared, so between the begin and the rollback of one caller's grayscale
 * publish every other call runs inside that caller's transaction. Commit is never reached: the inner
 * publish throws. Module StatementRuns goes below whole calls.
 */
module TransactionWindows {
  import opened Seqs
  import opened ConfigTables
  import opened SqliteStore
  import StoreRuns

  /** A create or update that reported success: when it ran and the version entry it left. */
  datatype Write = Write(event: nat, entry: Version)

  /** What a begin saves and a rollback restores; `writes` are the reported writes the tables hold. */
  datatype Saved = Saved(tables: Tables, writes: seq<Write>)

  /** `open` is what to restore while a window is open; `now` counts the events. */
  datatype State = State(tables: Tables, writes: seq<Write>, open: Option<Saved>, now: nat)

  const START := State(EMPTY, [], None, 0)

  /** One store call, or the begin or the rollback of a grayscale publish. */
  datatype Event = Call(op: StoreRuns.Op) | Begin | Rollback

  /**
   * A publish opens a transaction of its own and throws inside a window; so does a second begin. A
   * rollback without a window throws as well.
   */
  function Next(s: State, e: Event): (State, Outcome) {
    var later := s.(now := s.now + 1);
    match e
    case Begin =>
      if s.open.Some? then (later, Thrown) else (later.(open := Some(Saved(s.tables, s.writes))), Done(true))
    case Rollback =>
      if s.open.None? then (later, Thrown)
      else (later.(tables := s.open.value.tables, writes := s.open.value.writes, open := None), Done(true))
    case Call(op) =>
      if op.Publish? && s.open.Some? then (later, Thrown) else
        var (t, ok) := StoreRuns.Step(s.tables, op);
        var wrote := if IsWrite(op) && ok then [Write(s.now, WrittenEntry(s.tables, op))] else [];
        (later.(tables := t, writes := s.writes + wrote), Done(ok))
  }

  predicate IsWrite(op: StoreRuns.Op) { op.Create? || op.Update? }

  /** The version entry a write leaves behind when it takes place in `t`. */
  function WrittenEntry(t: Tables, op: StoreRuns.Op): Version
    requires IsWrite(op)
  {
    var version := if op.Create? || op.k !in t.configs then 1 else t.configs[op.k].version + 1;
    VersionEntry(op.k, version, op.value, if op.Create? then "create" else "update", op.operator, op.ts)
  }

  function Run(events: seq<Event>): State {
    if events == [] then START else Next(Run(events[..|events| - 1]), events[|events| - 1]).0
  }

  /** Event `i` happens inside a window. */
  predicate InWindow(events: seq<Event>, i: nat)
    requires i < |events|
  {
    Run(events[..i]).open.Some?
  }

  /** The store operations outside all windows. */
  function Outside(events: seq<Event>): seq<StoreRuns.Op> {
    if events == [] then [] else
      var m := |events| - 1;
      Outside(events[..m]) + if events[m].Call? && !InWindow(events, m) then [events[m].op] else []
  }

  /** The store operations of the window still open at the end, as far as they took place. */
  function Inside(events: seq<Event>): seq<StoreRuns.Op> {
    if events == [] then [] else
      var m := |events| - 1;
      match events[m]
      case Begin => if InWindow(events, m) then Inside(events[..m]) else []
      case Rollback => []
      case Call(op) => if InWindow(events, m) && !op.Publish? then Inside(events[..m]) + [op] else Inside(events[..m])
  }

  lemma RunSnoc(ops: seq<StoreRuns.Op>, op: StoreRuns.Op)
    ensures StoreRuns.Run(ops + [op]) == StoreRuns.Step(StoreRuns.Run(ops), op).0
  {
    assert (ops + [op])[..|ops|] == ops;
  }

  /** What a state means in terms of operations outside and inside its window. */
  ghost predicate Explained(s: State, outside: seq<StoreRuns.Op>, inside: seq<StoreRuns.Op>) {
    && s.tables == StoreRuns.Run(outside + inside)
    && (s.open.None? ==> inside == [])
    && (s.open.Some? ==> s.open.value.tables == StoreRuns.Run(outside))
  }

  lemma NextExplained(s: State, e: Event, outside: seq<StoreRuns.Op>, inside: seq<StoreRuns.Op>)
    requires Explained(s, outside, inside)
    ensures e.Begin? && s.open.None? ==> Explained(Next(s, e).0, outside, [])
    ensures e.Rollback? ==> Explained(Next(s, e).0, outside, [])
    ensures e.Call? && s.open.None? ==> Explained(Next(s, e).0, outside + [e.op], [])
    ensures e.Call? && s.open.Some? && !e.op.Publish? ==> Explained(Next(s, e).0, outside, inside + [e.op])
    ensures s.open.Some? && (e.Begin? || (e.Call? && e.op.Publish?)) ==> Explained(Next(s, e).0, outside, inside)
  {
    assert outside + [] == outside;
    if e.Call? {
      assert (outside + [e.op]) + [] == outside + [e.op];
      RunSnoc(outside, e.op);
      assert outside + (inside + [e.op]) == (outside + inside) + [e.op];
      RunSnoc(outside + inside, e.op);
    }
  }

  /**
   * In every sequence of calls, begins and rollbacks the tables are those of the operations outside
   * all windows, followed by those of the window that is open, if one is; the tables a rollback will
   * restore are those of the operations outside. So with no window open every theorem about store
   * runs holds of the tables, for the operations outside.
   */
  lemma {:induction false} TablesAreOutsideRun(events: seq<Event>)
    ensures Explained(Run(events), Outside(events), Inside(events))
  {
    if events == [] {
      assert Outside(events) + Inside(events) == [];
    } else {
      var m := |events| - 1;
      TablesAreOutsideRun(events[..m]);
      NextExplained(Run(events[..m]), events[m], Outside(events[..m]), Inside(events[..m]));
      assert Outside(events[..m]) + [] == Outside(events[..m]);
    }
  }

  // Which writes survive.

  /** Event `i` is a create or update that reports success. */
  predicate ReportsWrite(events: seq<Event>, i: nat)
    requires i < |events|
  {
    events[i].Call? && IsWrite(events[i].op) && Next(Run(events[..i]), events[i]).1 == Done(true)
  }

  function Entries(ws: seq<Write>): (r: seq<Version>)
    ensures |r| == |ws|
  {
    seq(|ws|, i requires 0 <= i < |ws| => ws[i].entry)
  }

  /** The version table holds exactly the entries of the writes, in order; so do the saved tables. */
  predicate Accounted(s: State) {
    && s.tables.versions == Entries(s.writes)
    && (s.open.Some? ==> s.open.value.tables.versions == Entries(s.open.value.writes))
  }

  lemma StepAppends(t: Tables, op: StoreRuns.Op)
    ensures var (t', ok) := StoreRuns.Step(t, op);
            t'.versions == t.versions + if IsWrite(op) && ok then [WrittenEntry(t, op)] else []
  {
  }

  lemma NextAccounted(s: State, e: Event)
    requires Accounted(s)
    ensures Accounted(Next(s, e).0)
  {
    if e.Call? {
      StepAppends(s.tables, e.op);
      assert forall w: Write :: Entries(s.writes + [w]) == Entries(s.writes) + [w.entry];
      assert s.writes + [] == s.writes;
    }
  }

  lemma {:induction false} RunAccounted(events: seq<Event>)
    ensures Run(events).now == |events| && Accounted(Run(events))
  {
    if events != [] {
      var m := |events| - 1;
      RunAccounted(events[..m]);
      NextAccounted(Run(events[..m]), events[m]);
    }
  }

  ghost predicate Holds(ws: seq<Write>, i: nat) { exists w :: w in ws && w.event == i }

  /** The writes that would stand if the open window, should there be one, were rolled back now. */
  function Standing(s: State): seq<Write> { if s.open.Some? then s.open.value.writes else s.writes }

  lemma HoldsSnoc(ws: seq<Write>, w: Write, i: nat)
    ensures Holds(ws + [w], i) <==> Holds(ws, i) || w.event == i
  {
    if Holds(ws, i) {
      var v :| v in ws && v.event == i;
      assert v in ws + [w];
    }
    assert w in ws + [w];
  }

  lemma {:induction false} NoFutureWrites(events: seq<Event>, i: nat)
    ensures i >= |events| ==> !Holds(Standing(Run(events)), i) && !Holds(Run(events).writes, i)
  {
    if events != [] && i >= |events| {
      var m := |events| - 1;
      var s := Run(events[..m]);
      NoFutureWrites(events[..m], i);
      RunAccounted(events[..m]);
      if events[m].Call? && IsWrite(events[m].op) {
        HoldsSnoc(s.writes, Write(s.now, WrittenEntry(s.tables, events[m].op)), i);
        assert s.writes + [] == s.writes;
      }
    }
  }

  /** What stands after an event is what stood before it, and the event itself when it wrote outside. */
  lemma NextStanding(s: State, e: Event, i: nat)
    ensures Holds(Standing(Next(s, e).0), i) <==>
            || Holds(Standing(s), i)
            || (i == s.now && s.open.None? && e.Call? && IsWrite(e.op) && Next(s, e).1 == Done(true))
  {
    if s.open.None? && e.Call? && IsWrite(e.op) {
      HoldsSnoc(s.writes, Write(s.now, WrittenEntry(s.tables, e.op)), i);
    }
    assert s.writes + [] == s.writes;
  }

  lemma StandingSnoc(events: seq<Event>, i: nat)
    requires events != []
    ensures var m := |events| - 1;
            Holds(Standing(Run(events)), i) <==>
            Holds(Standing(Run(events[..m])), i) || (i == m && ReportsWrite(events, m) && !InWindow(events, m))
  {
    var m := |events| - 1;
    RunAccounted(events[..m]);
    NextStanding(Run(events[..m]), events[m], i);
  }

  lemma {:induction false} StandingIffOutside(events: seq<Event>, i: nat)
    requires i < |events|
    ensures Holds(Standing(Run(events)), i) <==> ReportsWrite(events, i) && !InWindow(events, i)
  {
    var m := |events| - 1;
    StandingSnoc(events, i);
    if i < m {
      StandingIffOutside(events[..m], i);
      assert events[..m][..i] == events[..i];
    } else {
      NoFutureWrites(events[..m], i);
    }
  }

  /**
   * With no window open the version table holds exactly the entries of the writes the state carries,
   * in order, and a write that reported success is among them if and only if it lies in no window.
   */
  lemma WriteSurvivesIffOutside(events: seq<Event>, i: nat)
    requires i < |events| && ReportsWrite(events, i) && Run(events).open.None?
    ensures Run(events).tables.versions == Entries(Run(events).writes)
    ensures Holds(Run(events).writes, i) <==> !InWindow(events, i)
  {
    RunAccounted(events);
    StandingIffOutside(events, i);
  }

  /** Inside a window a begin and a publish throw, outside one a rollback does, and none of them changes the tables. */
  lemma ThrowsOnNesting(s: State, publish: StoreRuns.Op)
    requires publish.Publish?
    ensures s.open.Some? ==> Next(s, Begin) == (s.(now := s.now + 1), Thrown)
    ensures s.open.Some? ==> Next(s, Call(publish)) == (s.(now := s.now + 1), Thrown)
    ensures s.open.None? ==> Next(s, Rollback) == (s.(now := s.now + 1), Thrown)
  {
  }

  /** One caller begins a grayscale publish, another creates a key and is told so, the first rolls back. */
  lemma ReportedWriteIsLost(op: StoreRuns.Op, publish: StoreRuns.Op)
    requires op.Create? && publish.Publish?
    ensures var events := [Begin, Call(op), Call(publish), Rollback];
            && ReportsWrite(events, 1)
            && Next(Run(events[..2]), events[2]).1 == Thrown
            && Run(events).tables == EMPTY && Run(events).writes == []
  {
    var events := [Begin, Call(op), Call(publish), Rollback];
    assert events[..3][..2] == events[..2] && events[..2][..1] == events[..1] && events[..1][..0] == [];
    assert Run(events[..1][..0]) == START;
    assert Run(events[..1]) == State(EMPTY, [], Some(Saved(EMPTY, [])), 1);
    assert Run(events[..2]).open == Some(Saved(EMPTY, []));
    assert Run(events[..3]).open == Some(Saved(EMPTY, []));
  }
}
