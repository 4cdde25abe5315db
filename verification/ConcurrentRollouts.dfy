/**
 * Full rollouts that overlap. A rollout reads its release, retires it and adds a new one in three
 * separate locked regions, so any number of rollouts and publishes interleave region by region.
 */
module ConcurrentRollouts {
  import opened Seqs
  import opened ConfigTables
  import opened PublishEngine
  import opened EngineRuns

  /** A rollout that saw its release active, then retired it, then added the new one. */
  datatype Flight = Checked(id: int) | Midway(id: int) | Finished(id: int)

  /** `doubles` counts retirements of a release that was retired already. */
  datatype State = State(tables: Tables, flights: seq<Flight>, doubles: nat)

  const START := State(EMPTY, [], 0)

  datatype Step =
    | Publish(ns: string, note: string, operator: string, ts: string)
    | Check(id: int)
    | Retire(f: nat)
    | Create(f: nat, ns: string, operator: string)

  /** The rollout has retired its release. */
  predicate HasRetired(f: Flight) { f.Midway? || f.Finished? }
  function IsMidway(): Flight -> bool { (f: Flight) => f.Midway? }

  predicate Enabled(s: State, step: Step) {
    match step
    case Publish(_, _, _, _) => true
    case Check(id) => CanRollOut(s.tables, id)
    case Retire(f) => f < |s.flights| && s.flights[f].Checked?
    case Create(f, _, _) => f < |s.flights| && s.flights[f].Midway?
  }

  function Next(s: State, step: Step): State {
    if !Enabled(s, step) then s else
      match step
      case Publish(ns, note, operator, ts) => s.(tables := Published(s.tables, ns, note, operator, ts))
      case Check(id) => s.(flights := s.flights + [Checked(id)])
      case Retire(f) =>
        var id := s.flights[f].id;
        State(Retired(s.tables, id), s.flights[f := Midway(id)], s.doubles + if IsRetired(s.tables, id) then 1 else 0)
      case Create(f, ns, operator) =>
        var id := s.flights[f].id;
        s.(tables := ReleaseCreated(s.tables, RolloutRelease(ns, operator, id)),
           flights := s.flights[f := Finished(id)])
  }

  function Run(steps: seq<Step>): State {
    if steps == [] then START else Next(Run(steps[..|steps| - 1]), steps[|steps| - 1])
  }

  function Publishes(steps: seq<Step>): nat {
    if steps == [] then 0 else Publishes(steps[..|steps| - 1]) + if steps[|steps| - 1].Publish? then 1 else 0
  }

  // Counting active releases.

  ghost predicate Balanced(s: State, published: nat) {
    && ReleasesOk(s.tables)
    && (forall f :: 0 <= f < |s.flights| ==> 1 <= s.flights[f].id <= |s.tables.releases|)
    && Count(IsActive(), s.tables.releases) + Count(IsMidway(), s.flights) == published + s.doubles
  }

  /** Retiring one release touches that release alone. */
  lemma RetiresOne(t: Tables, id: int)
    requires ReleasesOk(t) && 1 <= id <= |t.releases|
    ensures Retired(t, id).releases == t.releases[id - 1 := t.releases[id - 1].(status := "retired")]
    ensures Count(IsActive(), Retired(t, id).releases)
            == Count(IsActive(), t.releases) - if IsRetired(t, id) then 0 else 1
  {
    var gone := t.releases[id - 1].(status := "retired");
    assert Retired(t, id).releases == t.releases[id - 1 := gone];
    CountReplaced(IsActive(), t.releases, id - 1, gone);
    assert KnownStatus(t.releases[id - 1]);
  }

  lemma RetireBalanced(s: State, f: nat, published: nat)
    requires Balanced(s, published) && f < |s.flights| && s.flights[f].Checked?
    ensures Balanced(Next(s, Retire(f)), published)
  {
    RetiresOne(s.tables, s.flights[f].id);
    CountReplaced(IsMidway(), s.flights, f, Midway(s.flights[f].id));
  }

  lemma CreateBalanced(s: State, f: nat, ns: string, operator: string, published: nat)
    requires Balanced(s, published) && f < |s.flights| && s.flights[f].Midway?
    ensures Balanced(Next(s, Create(f, ns, operator)), published)
  {
    var s' := Next(s, Create(f, ns, operator));
    FilterSnoc(IsActive(), s.tables.releases, s'.tables.releases[|s.tables.releases|]);
    CountReplaced(IsMidway(), s.flights, f, Finished(s.flights[f].id));
  }

  lemma PublishBalanced(s: State, ns: string, note: string, operator: string, ts: string, published: nat)
    requires Balanced(s, published)
    ensures Balanced(Next(s, Publish(ns, note, operator, ts)), published + 1)
  {
    FilterSnoc(IsActive(), s.tables.releases, NewRelease(s.tables, ns, note, operator, ts));
  }

  lemma CheckBalanced(s: State, id: int, published: nat)
    requires Balanced(s, published)
    ensures Balanced(Next(s, Check(id)), published)
  {
    FilterSnoc(IsMidway(), s.flights, Checked(id));
  }

  lemma NextBalanced(s: State, step: Step, published: nat)
    requires Balanced(s, published)
    ensures Balanced(Next(s, step), published + if step.Publish? then 1 else 0)
  {
    if Enabled(s, step) {
      match step
      case Publish(ns, note, operator, ts) => PublishBalanced(s, ns, note, operator, ts, published);
      case Check(id) => CheckBalanced(s, id, published);
      case Retire(f) => RetireBalanced(s, f, published);
      case Create(f, ns, operator) => CreateBalanced(s, f, ns, operator, published);
    }
  }

  lemma {:induction false} RunBalanced(steps: seq<Step>)
    ensures Balanced(Run(steps), Publishes(steps))
  {
    if steps != [] {
      RunBalanced(steps[..|steps| - 1]);
      NextBalanced(Run(steps[..|steps| - 1]), steps[|steps| - 1], Publishes(steps[..|steps| - 1]));
    }
  }

  // Which rollouts double.

  /** Some rollout has retired `id`. */
  ghost predicate Hit(flights: seq<Flight>, id: int) {
    exists f :: 0 <= f < |flights| && HasRetired(flights[f]) && flights[f].id == id
  }

  ghost predicate Distinct(flights: seq<Flight>) {
    forall f, g :: 0 <= f < g < |flights| && HasRetired(flights[f]) && HasRetired(flights[g]) ==>
                     flights[f].id != flights[g].id
  }

  /** Releases are retired by rollouts alone, and doubles come from rollouts of one release. */
  ghost predicate Explained(s: State) {
    && (forall id :: IsRetired(s.tables, id) <==> Hit(s.flights, id))
    && (s.doubles == 0 <==> Distinct(s.flights))
  }

  lemma RetireHits(flights: seq<Flight>, f: nat, id: int)
    requires f < |flights| && flights[f].Checked?
    ensures Hit(flights[f := Midway(flights[f].id)], id) <==> Hit(flights, id) || id == flights[f].id
  {
    var after := flights[f := Midway(flights[f].id)];
    if Hit(flights, id) {
      var g :| 0 <= g < |flights| && HasRetired(flights[g]) && flights[g].id == id;
      assert after[g] == flights[g];
    }
    if id == flights[f].id { assert HasRetired(after[f]) && after[f].id == id; }
    if Hit(after, id) && id != flights[f].id {
      var g :| 0 <= g < |after| && HasRetired(after[g]) && after[g].id == id;
      assert after[g] == flights[g];
    }
  }

  lemma RetireDistinct(flights: seq<Flight>, f: nat)
    requires f < |flights| && flights[f].Checked?
    ensures Distinct(flights[f := Midway(flights[f].id)]) <==> Distinct(flights) && !Hit(flights, flights[f].id)
  {
    var id := flights[f].id;
    var after := flights[f := Midway(id)];
    if Hit(flights, id) {
      var g :| 0 <= g < |flights| && HasRetired(flights[g]) && flights[g].id == id;
      assert after[g] == flights[g] && after[f] == Midway(id) && g != f;
    }
    if Distinct(after) {
      forall g, h | 0 <= g < h < |flights| && HasRetired(flights[g]) && HasRetired(flights[h])
        ensures flights[g].id != flights[h].id
      {
        assert after[g] == flights[g] && after[h] == flights[h];
      }
    }
  }

  /** Steps that change no flight's having retired keep hits and distinctness. */
  lemma SameHits(a: seq<Flight>, b: seq<Flight>, id: int)
    requires |a| <= |b| && forall f :: |a| <= f < |b| ==> b[f].Checked?
    requires forall f :: 0 <= f < |a| ==> a[f].id == b[f].id && HasRetired(a[f]) == HasRetired(b[f])
    ensures Hit(a, id) <==> Hit(b, id)
    ensures Distinct(a) <==> Distinct(b)
  {
    if Hit(a, id) {
      var f :| 0 <= f < |a| && HasRetired(a[f]) && a[f].id == id;
      assert HasRetired(b[f]) && b[f].id == id;
    }
    if Hit(b, id) {
      var f :| 0 <= f < |b| && HasRetired(b[f]) && b[f].id == id;
      assert HasRetired(a[f]) && a[f].id == id;
    }
    if Distinct(b) {
      forall f, g | 0 <= f < g < |a| && HasRetired(a[f]) && HasRetired(a[g]) ensures a[f].id != a[g].id {
        assert HasRetired(b[f]) && HasRetired(b[g]);
      }
    }
  }

  lemma RetireExplained(s: State, f: nat, published: nat)
    requires Balanced(s, published) && Explained(s) && f < |s.flights| && s.flights[f].Checked?
    ensures Explained(Next(s, Retire(f)))
  {
    var s', id := Next(s, Retire(f)), s.flights[f].id;
    RetiresOne(s.tables, id);
    forall other ensures IsRetired(s'.tables, other) <==> Hit(s'.flights, other) {
      assert IsRetired(s.tables, other) <==> Hit(s.flights, other);
      RetireHits(s.flights, f, other);
    }
    RetireDistinct(s.flights, f);
    assert IsRetired(s.tables, id) <==> Hit(s.flights, id);
  }

  lemma NextExplained(s: State, step: Step, published: nat)
    requires Balanced(s, published) && Explained(s)
    ensures Explained(Next(s, step))
  {
    if Enabled(s, step) {
      if step.Retire? {
        RetireExplained(s, step.f, published);
      } else {
        var s' := Next(s, step);
        SameHits(s.flights, s'.flights, 0);
        forall id ensures IsRetired(s'.tables, id) <==> Hit(s'.flights, id) {
          assert IsRetired(s.tables, id) <==> Hit(s.flights, id);
          SameHits(s.flights, s'.flights, id);
        }
      }
    }
  }

  lemma {:induction false} RunExplained(steps: seq<Step>)
    ensures Explained(Run(steps))
  {
    if steps != [] {
      RunBalanced(steps[..|steps| - 1]);
      RunExplained(steps[..|steps| - 1]);
      NextExplained(Run(steps[..|steps| - 1]), steps[|steps| - 1], Publishes(steps[..|steps| - 1]));
    }
  }

  /**
   * In every interleaving the active releases and the rollouts between their retirement and their new
   * release add up to the publishes and the doubled retirements; and nothing is doubled exactly when
   * no two rollouts have retired the same release.
   */
  lemma ActivesUnderInterleaving(steps: seq<Step>)
    ensures var s := Run(steps);
            && Count(IsActive(), s.tables.releases) + Count(IsMidway(), s.flights) == Publishes(steps) + s.doubles
            && (s.doubles == 0 <==> Distinct(s.flights))
  {
    RunBalanced(steps);
    RunExplained(steps);
  }

  /** Once all rollouts are done, the actives equal the publishes exactly when no release was rolled out twice. */
  lemma ActivesWhenDone(steps: seq<Step>)
    requires var fs := Run(steps).flights; forall f :: 0 <= f < |fs| ==> fs[f].Finished?
    ensures var s := Run(steps);
            Count(IsActive(), s.tables.releases) == Publishes(steps) <==>
            forall f, g :: 0 <= f < g < |s.flights| ==> s.flights[f].id != s.flights[g].id
  {
    ActivesUnderInterleaving(steps);
    FilterNone(IsMidway(), Run(steps).flights);
  }

  /** Two callers that both check before either retires double the release. */
  lemma OverlappingRolloutsDouble(ns: string, note: string, operator: string, ts: string)
    ensures var steps := [Publish(ns, note, operator, ts), Check(1), Check(1), Retire(0), Retire(1)];
            Run(steps).doubles == 1
  {
    var steps := [Publish(ns, note, operator, ts), Check(1), Check(1), Retire(0), Retire(1)];
    assert steps[..4][..3] == steps[..3] && steps[..3][..2] == steps[..2] && steps[..2][..1] == steps[..1];
    assert steps[..1][..0] == [] && Run(steps[..1][..0]) == START;
    var s1 := Run(steps[..1]);
    assert s1 == Next(START, steps[0]);
    assert s1.tables.releases[0].id == 1 && s1.tables.releases[0].status == "active";
    assert Run(steps[..3]) == s1.(flights := [Checked(1), Checked(1)]);
    var s4 := Run(steps[..4]);
    assert s4 == Next(Run(steps[..3]), Retire(0));
    assert s4.flights[1] == Checked(1) && s4.doubles == 0;
    assert s4.tables.releases[0].status == "retired";
    assert IsRetired(s4.tables, 1);
  }
}
