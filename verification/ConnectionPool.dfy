/**
 * The MySQL connection pool as a step system over any number of threads. Each step is one region
 * under the pool's mutex, or the wake-up of a thread blocked on its condition variable.
 */
module ConnectionPool {
  import opened Seqs

  /** A thread is outside the pool, blocked in `acquire`, or between `acquire` and `release`. */
  datatype Party = Outside | Waiting(woken: bool) | Holding(conn: nat)

  /** `lost` are the connections an explicit transaction call took and never gave back. */
  datatype Pool = Pool(idle: seq<nat>, threads: seq<Party>, lost: seq<nat>)

  datatype Step =
    | Acquire(t: nat)
    | Resume(t: nat)                  // a woken thread gets the mutex and re-checks
    | Spurious(t: nat)                // the condition variable wakes a thread on its own
    | Release(t: nat, chosen: nat)    // notify_one wakes `chosen`
    | Abandon(t: nat)                 // begin, commit or rollbackTransaction returns

  function Connections(size: nat): seq<nat> { seq(size, i => i) }

  function Start(size: nat, threads: nat): Pool { Pool(Connections(size), seq(threads, _ => Outside), []) }

  function Asleep(): Party -> bool { (p: Party) => p == Waiting(false) }
  function Woken(): Party -> bool { (p: Party) => p == Waiting(true) }
  function Holds(): Party -> bool { (p: Party) => p.Holding? }

  /** Take the front connection, or sleep when there is none. */
  function TakeOrSleep(p: Pool, t: nat): (q: Pool)
    requires t < |p.threads|
    ensures |q.threads| == |p.threads|
  {
    if p.idle != [] then p.(idle := p.idle[1..], threads := p.threads[t := Holding(p.idle[0])])
    else p.(threads := p.threads[t := Waiting(false)])
  }

  /** `notify_one` wakes a sleeper if there is one. */
  predicate MayNotify(threads: seq<Party>, chosen: nat) {
    Filter(Asleep(), threads) == [] || (chosen < |threads| && threads[chosen] == Waiting(false))
  }

  function Notify(threads: seq<Party>, chosen: nat): seq<Party>
    requires MayNotify(threads, chosen)
  {
    if Filter(Asleep(), threads) == [] then threads else threads[chosen := Waiting(true)]
  }

  predicate Enabled(p: Pool, s: Step) {
    && s.t < |p.threads|
    && match s
       case Acquire(t) => p.threads[t] == Outside
       case Resume(t) => p.threads[t] == Waiting(true)
       case Spurious(t) => p.threads[t] == Waiting(false)
       case Release(t, chosen) => p.threads[t].Holding? && MayNotify(p.threads, chosen)
       case Abandon(t) => p.threads[t].Holding?
  }

  function Next(p: Pool, s: Step): (q: Pool)
    ensures |q.threads| == |p.threads|
  {
    if !Enabled(p, s) then p else
      match s
      case Acquire(t) => TakeOrSleep(p, t)
      case Resume(t) => TakeOrSleep(p, t)
      case Spurious(t) => p.(threads := p.threads[t := Waiting(true)])
      case Release(t, chosen) =>
        Pool(p.idle + [p.threads[t].conn], Notify(p.threads, chosen)[t := Outside], p.lost)
      case Abandon(t) => p.(threads := p.threads[t := Outside], lost := p.lost + [p.threads[t].conn])
  }

  function Run(p: Pool, steps: seq<Step>): (q: Pool)
    ensures |q.threads| == |p.threads|
  {
    if steps == [] then p else Next(Run(p, steps[..|steps| - 1]), steps[|steps| - 1])
  }

  // Conservation of connections.

  function HoldsConn(c: nat): Party -> bool { (p: Party) => p == Holding(c) }

  /** How many places connection `c` is in: idle entries, holders and lost entries. */
  function Places(p: Pool, c: nat): nat {
    multiset(p.idle)[c] + Count(HoldsConn(c), p.threads) + multiset(p.lost)[c]
  }

  lemma TakeConserves(p: Pool, t: nat, c: nat)
    requires t < |p.threads| && !p.threads[t].Holding?
    ensures Places(TakeOrSleep(p, t), c) == Places(p, c)
  {
    if p.idle != [] {
      CountReplaced(HoldsConn(c), p.threads, t, Holding(p.idle[0]));
      assert p.idle == [p.idle[0]] + p.idle[1..];
    } else {
      CountReplaced(HoldsConn(c), p.threads, t, Waiting(false));
    }
  }

  lemma NextConserves(p: Pool, s: Step, c: nat)
    ensures Places(Next(p, s), c) == Places(p, c)
  {
    if Enabled(p, s) {
      match s
      case Acquire(t) => TakeConserves(p, t, c);
      case Resume(t) => TakeConserves(p, t, c);
      case Spurious(t) => CountReplaced(HoldsConn(c), p.threads, t, Waiting(true));
      case Release(t, chosen) =>
        if Filter(Asleep(), p.threads) != [] { CountReplaced(HoldsConn(c), p.threads, chosen, Waiting(true)); }
        CountReplaced(HoldsConn(c), Notify(p.threads, chosen), t, Outside);
      case Abandon(t) => CountReplaced(HoldsConn(c), p.threads, t, Outside);
    }
  }

  lemma {:induction false} RunConserves(p: Pool, steps: seq<Step>, c: nat)
    ensures Places(Run(p, steps), c) == Places(p, c)
  {
    if steps != [] {
      RunConserves(p, steps[..|steps| - 1], c);
      NextConserves(Run(p, steps[..|steps| - 1]), steps[|steps| - 1], c);
    }
  }

  lemma {:induction false} EachOnce(size: nat, c: nat)
    ensures multiset(Connections(size))[c] == if c < size then 1 else 0
  {
    if size > 0 {
      EachOnce(size - 1, c);
      assert Connections(size) == Connections(size - 1) + [size - 1];
    }
  }

  /** In every run each connection is in exactly one place: idle once, held once, or lost once. */
  lemma EachConnectionOnce(size: nat, threads: nat, steps: seq<Step>, c: nat)
    ensures Places(Run(Start(size, threads), steps), c) == if c < size then 1 else 0
  {
    RunConserves(Start(size, threads), steps, c);
    FilterNone(HoldsConn(c), Start(size, threads).threads);
    EachOnce(size, c);
  }

  /** A held connection is not idle, and no other thread holds it. */
  lemma HoldersAreExclusive(size: nat, threads: nat, steps: seq<Step>, t: nat, u: nat)
    requires var p := Run(Start(size, threads), steps); t < |p.threads| && u < |p.threads| && p.threads[t].Holding?
    ensures var p := Run(Start(size, threads), steps);
            && p.threads[t].conn !in p.idle && p.threads[t].conn < size
            && (p.threads[u] == p.threads[t] ==> u == t)
  {
    var p := Run(Start(size, threads), steps);
    var c := p.threads[t].conn;
    EachConnectionOnce(size, threads, steps, c);
    FilterComplete(HoldsConn(c), p.threads, p.threads[t]);
    assert c !in multiset(p.idle);
    if p.threads[u] == p.threads[t] && u < t { TwoHolders(p.threads, u, t, c); }
    if p.threads[u] == p.threads[t] && t < u { TwoHolders(p.threads, t, u, c); }
  }

  lemma TwoHolders(threads: seq<Party>, lo: nat, hi: nat, c: nat)
    requires lo < hi < |threads| && threads[lo] == threads[hi] == Holding(c)
    ensures Count(HoldsConn(c), threads) >= 2
  {
    var front, back := threads[..hi], threads[hi..];
    assert threads == front + back && front[lo] == Holding(c) && back[0] == Holding(c);
    FilterConcat(HoldsConn(c), front, back);
    FilterComplete(HoldsConn(c), front, Holding(c));
    FilterComplete(HoldsConn(c), back, Holding(c));
  }

  // Counting and wake-ups.

  ghost predicate Inv(p: Pool, size: nat) {
    && |p.idle| + Count(Holds(), p.threads) + |p.lost| == size
    && (Count(Asleep(), p.threads) > 0 ==> |p.idle| <= Count(Woken(), p.threads))
  }

  lemma Recount(threads: seq<Party>, t: nat, x: Party)
    requires t < |threads|
    ensures Count(Holds(), threads[t := x]) + (if threads[t].Holding? then 1 else 0)
            == Count(Holds(), threads) + if x.Holding? then 1 else 0
    ensures Count(Asleep(), threads[t := x]) + (if threads[t] == Waiting(false) then 1 else 0)
            == Count(Asleep(), threads) + if x == Waiting(false) then 1 else 0
    ensures Count(Woken(), threads[t := x]) + (if threads[t] == Waiting(true) then 1 else 0)
            == Count(Woken(), threads) + if x == Waiting(true) then 1 else 0
  {
    CountReplaced(Holds(), threads, t, x);
    CountReplaced(Asleep(), threads, t, x);
    CountReplaced(Woken(), threads, t, x);
  }

  lemma NextInv(p: Pool, s: Step, size: nat)
    requires Inv(p, size)
    ensures Inv(Next(p, s), size)
  {
    if Enabled(p, s) {
      match s
      case Acquire(t) => Recount(p.threads, t, if p.idle != [] then Holding(p.idle[0]) else Waiting(false));
      case Resume(t) => Recount(p.threads, t, if p.idle != [] then Holding(p.idle[0]) else Waiting(false));
      case Spurious(t) => Recount(p.threads, t, Waiting(true));
      case Release(t, chosen) =>
        if Filter(Asleep(), p.threads) != [] { Recount(p.threads, chosen, Waiting(true)); }
        Recount(Notify(p.threads, chosen), t, Outside);
      case Abandon(t) => Recount(p.threads, t, Outside);
    }
  }

  lemma StartInv(size: nat, threads: nat)
    ensures Inv(Start(size, threads), size)
  {
    FilterNone(Holds(), Start(size, threads).threads);
    FilterNone(Asleep(), Start(size, threads).threads);
  }

  lemma {:induction false} RunInv(p: Pool, steps: seq<Step>, size: nat)
    requires Inv(p, size)
    ensures Inv(Run(p, steps), size)
  {
    if steps != [] {
      RunInv(p, steps[..|steps| - 1], size);
      NextInv(Run(p, steps[..|steps| - 1]), steps[|steps| - 1], size);
    }
  }

  /** No thread can move a blocked thread on: nobody is awake in `acquire` and nobody holds. */
  predicate Stuck(p: Pool) {
    && (exists t :: 0 <= t < |p.threads| && p.threads[t].Waiting?)
    && (forall t :: 0 <= t < |p.threads| ==> p.threads[t] == Outside || p.threads[t] == Waiting(false))
  }

  /** A blocked thread always has a woken waiter or a holder to wait for, unless every connection is lost. */
  lemma StuckOnlyWhenAllLost(size: nat, threads: nat, steps: seq<Step>)
    requires Stuck(Run(Start(size, threads), steps))
    ensures |Run(Start(size, threads), steps).lost| == size
  {
    var p := Run(Start(size, threads), steps);
    StartInv(size, threads);
    RunInv(Start(size, threads), steps, size);
    FilterNone(Holds(), p.threads);
    FilterNone(Woken(), p.threads);
    var t :| 0 <= t < |p.threads| && p.threads[t].Waiting?;
    FilterComplete(Asleep(), p.threads, p.threads[t]);
  }

  /** No lost wake-up: an idle connection beside a sleeper means some woken waiter is about to take one. */
  lemma IdleConnectionIsClaimed(size: nat, threads: nat, steps: seq<Step>, t: nat)
    requires var p := Run(Start(size, threads), steps);
             t < |p.threads| && p.threads[t] == Waiting(false) && p.idle != []
    ensures var p := Run(Start(size, threads), steps);
            exists u :: 0 <= u < |p.threads| && p.threads[u] == Waiting(true)
                        && Next(p, Resume(u)).threads[u] == Holding(p.idle[0])
  {
    var p := Run(Start(size, threads), steps);
    StartInv(size, threads);
    RunInv(Start(size, threads), steps, size);
    FilterComplete(Asleep(), p.threads, p.threads[t]);
    if forall u :: 0 <= u < |p.threads| ==> p.threads[u] != Waiting(true) {
      FilterNone(Woken(), p.threads);
    }
    var u :| 0 <= u < |p.threads| && p.threads[u] == Waiting(true);
    assert Next(p, Resume(u)).threads[u] == Holding(p.idle[0]);
  }

  function Abandons(p: Pool, steps: seq<Step>): nat {
    if steps == [] then 0 else
      var m := |steps| - 1;
      Abandons(p, steps[..m]) + if steps[m].Abandon? && Enabled(Run(p, steps[..m]), steps[m]) then 1 else 0
  }

  lemma {:induction false} LostEqualsAbandons(p: Pool, steps: seq<Step>)
    ensures |Run(p, steps).lost| == |p.lost| + Abandons(p, steps)
  {
    if steps != [] { LostEqualsAbandons(p, steps[..|steps| - 1]); }
  }

  predicate NobodyHolds(p: Pool) { forall t :: 0 <= t < |p.threads| ==> !p.threads[t].Holding? }

  /** When no thread holds a connection, exactly the abandoned ones are missing from the pool. */
  lemma IdleWhenQuiet(size: nat, threads: nat, steps: seq<Step>)
    requires NobodyHolds(Run(Start(size, threads), steps))
    ensures |Run(Start(size, threads), steps).idle| == size - Abandons(Start(size, threads), steps)
  {
    var p := Run(Start(size, threads), steps);
    StartInv(size, threads);
    RunInv(Start(size, threads), steps, size);
    FilterNone(Holds(), p.threads);
    LostEqualsAbandons(Start(size, threads), steps);
  }

  /** Once every connection is lost no thread ever holds one again. */
  lemma AllLostServesNobody(p: Pool, size: nat, steps: seq<Step>, t: nat)
    requires Inv(p, size) && |p.lost| == size && t < |p.threads|
    ensures !Run(p, steps).threads[t].Holding?
  {
    RunInv(p, steps, size);
    LostEqualsAbandons(p, steps);
    var q := Run(p, steps);
    if q.threads[t].Holding? {
      FilterComplete(Holds(), q.threads, q.threads[t]);
    }
  }

  // The order of connections.

  /** The connections handed out in the run, in order. */
  function HandedOut(p: Pool, steps: seq<Step>): seq<nat> {
    if steps == [] then [] else
      var m := |steps| - 1;
      var before, s := Run(p, steps[..m]), steps[m];
      var after := Next(before, s);
      HandedOut(p, steps[..m])
      + if s.t < |p.threads| && !before.threads[s.t].Holding? && after.threads[s.t].Holding?
        then [after.threads[s.t].conn] else []
  }

  /** The connections given back in the run, in order. */
  function GivenBack(p: Pool, steps: seq<Step>): seq<nat> {
    if steps == [] then [] else
      var m := |steps| - 1;
      var before, s := Run(p, steps[..m]), steps[m];
      GivenBack(p, steps[..m])
      + if s.Release? && Enabled(before, s) then [before.threads[s.t].conn] else []
  }

  /**
   * First in, first out: in every run the connections handed out, followed by those idle, are those
   * idle at first, followed by those given back.
   */
  lemma {:induction false} FirstInFirstOut(p: Pool, steps: seq<Step>)
    ensures HandedOut(p, steps) + Run(p, steps).idle == p.idle + GivenBack(p, steps)
  {
    if steps != [] {
      var m := |steps| - 1;
      FirstInFirstOut(p, steps[..m]);
      NextInOrder(Run(p, steps[..m]), steps[m], HandedOut(p, steps[..m]), p.idle + GivenBack(p, steps[..m]));
      assert p.idle + GivenBack(p, steps[..m]) + [] == p.idle + GivenBack(p, steps[..m]);
    }
  }

  lemma NextInOrder(p: Pool, s: Step, out: seq<nat>, all: seq<nat>)
    requires out + p.idle == all
    ensures var q := Next(p, s);
            var given := if s.Release? && Enabled(p, s) then [p.threads[s.t].conn] else [];
            var handed := if s.t < |p.threads| && !p.threads[s.t].Holding? && q.threads[s.t].Holding?
                          then [q.threads[s.t].conn] else [];
            (out + handed) + q.idle == all + given
  {
    var q := Next(p, s);
    if s.t < |p.threads| && !p.threads[s.t].Holding? && q.threads[s.t].Holding? {
      assert p.idle == [p.idle[0]] + q.idle;
    } else if s.Release? && Enabled(p, s) {
      assert q.idle == p.idle + [p.threads[s.t].conn];
      assert out + [] == out;
    } else {
      assert out + [] == out && all + [] == all && q.idle == p.idle;
    }
  }

  /** A thread that finds a connection idle gets one at once; one that finds none goes to sleep. */
  lemma ServedAtOnce(p: Pool, t: nat)
    requires t < |p.threads| && (p.threads[t] == Outside || p.threads[t] == Waiting(true))
    ensures var q := Next(p, if p.threads[t] == Outside then Acquire(t) else Resume(t));
            && (q.threads[t].Holding? <==> p.idle != [])
            && (!q.threads[t].Holding? ==> q == p.(threads := p.threads[t := Waiting(false)]))
  {
  }

  // Grayscale publishes: begin, publish, commit, of which the outer two give nothing back.

  /** How a thread's hold on a connection ended. */
  datatype End = Gave | Kept

  function IsKept(): End -> bool { (e: End) => e == Kept }

  /** How every thread's holds ended, in order, thread by thread. */
  function Ends(p: Pool, steps: seq<Step>): (ends: seq<seq<End>>)
    ensures |ends| == |p.threads|
  {
    if steps == [] then seq(|p.threads|, _ => []) else
      var m := |steps| - 1;
      var before, s := Ends(p, steps[..m]), steps[m];
      if !Enabled(Run(p, steps[..m]), s) then before
      else if s.Release? then before[s.t := before[s.t] + [Gave]]
      else if s.Abandon? then before[s.t := before[s.t] + [Kept]]
      else before
  }

  /**
   * How many grayscale publishes a thread finished, reading its holds as ordinary calls, which give
   * back, and grayscale publishes, which keep, give back and keep; none when they do not read so.
   */
  function Publishes(ends: seq<End>): Option<nat> {
    if ends == [] then Some(0)
    else if ends[0] == Gave then Publishes(ends[1..])
    else if |ends| >= 3 && ends[1] == Gave && ends[2] == Kept then
      match Publishes(ends[3..]) case Some(k) => Some(k + 1) case None => None
    else None
  }

  lemma {:induction false} EachPublishKeepsTwo(ends: seq<End>)
    requires Publishes(ends).Some?
    ensures Count(IsKept(), ends) == 2 * Publishes(ends).value
  {
    if ends != [] {
      var n := if ends[0] == Gave then 1 else 3;
      EachPublishKeepsTwo(ends[n..]);
      FilterConcat(IsKept(), ends[..n], ends[n..]);
      assert ends == ends[..n] + ends[n..];
      if n == 1 {
        assert ends[..1] == [Gave];
        FilterNone(IsKept(), [Gave]);
      } else {
        assert ends[..3] == [Kept] + [Gave] + [Kept];
        FilterConcat(IsKept(), [Kept] + [Gave], [Kept]);
        FilterConcat(IsKept(), [Kept], [Gave]);
        FilterAll(IsKept(), [Kept]);
        FilterNone(IsKept(), [Gave]);
      }
    }
  }

  function AllKept(ends: seq<seq<End>>): nat {
    if ends == [] then 0 else AllKept(ends[..|ends| - 1]) + Count(IsKept(), ends[|ends| - 1])
  }

  function AllPublishes(ends: seq<seq<End>>): nat
    requires forall t :: 0 <= t < |ends| ==> Publishes(ends[t]).Some?
  {
    if ends == [] then 0 else AllPublishes(ends[..|ends| - 1]) + Publishes(ends[|ends| - 1]).value
  }

  lemma {:induction false} AllPublishesKeepTwo(ends: seq<seq<End>>)
    requires forall t :: 0 <= t < |ends| ==> Publishes(ends[t]).Some?
    ensures AllKept(ends) == 2 * AllPublishes(ends)
  {
    if ends != [] {
      AllPublishesKeepTwo(ends[..|ends| - 1]);
      EachPublishKeepsTwo(ends[|ends| - 1]);
    }
  }

  lemma {:induction false} AllKeptReplaced(ends: seq<seq<End>>, t: nat, x: seq<End>)
    requires t < |ends|
    ensures AllKept(ends[t := x]) + Count(IsKept(), ends[t]) == AllKept(ends) + Count(IsKept(), x)
  {
    var m := |ends| - 1;
    if t < m {
      AllKeptReplaced(ends[..m], t, x);
      assert ends[t := x][..m] == ends[..m][t := x];
    } else {
      assert ends[t := x][..m] == ends[..m];
    }
  }

  lemma {:induction false} NothingKeptYet(n: nat)
    ensures AllKept(seq(n, _ => [])) == 0
  {
    if n > 0 {
      NothingKeptYet(n - 1);
      var none: seq<seq<End>> := seq(n, _ => []);
      assert none[..n - 1] == seq(n - 1, _ => []);
    }
  }

  /** Over all threads, what was kept is what was abandoned. */
  lemma {:induction false} AbandonsAreKept(p: Pool, steps: seq<Step>)
    ensures Abandons(p, steps) == AllKept(Ends(p, steps))
  {
    if steps == [] {
      NothingKeptYet(|p.threads|);
    } else {
      var m := |steps| - 1;
      var before, s := Ends(p, steps[..m]), steps[m];
      AbandonsAreKept(p, steps[..m]);
      if Enabled(Run(p, steps[..m]), s) && (s.Release? || s.Abandon?) {
        var e := if s.Release? then Gave else Kept;
        FilterSnoc(IsKept(), before[s.t], e);
        AllKeptReplaced(before, s.t, before[s.t] + [e]);
      }
    }
  }

  /**
   * In every interleaving of any number of threads whose explicit transaction calls all belong to
   * finished grayscale publishes, with nobody holding a connection, k publishes in all leave
   * size - 2k idle.
   */
  lemma GrayscalesDrain(size: nat, threads: nat, steps: seq<Step>)
    requires NobodyHolds(Run(Start(size, threads), steps))
    requires var ends := Ends(Start(size, threads), steps);
             forall t :: 0 <= t < |ends| ==> Publishes(ends[t]).Some?
    ensures |Run(Start(size, threads), steps).idle| == size - 2 * AllPublishes(Ends(Start(size, threads), steps))
  {
    IdleWhenQuiet(size, threads, steps);
    AbandonsAreKept(Start(size, threads), steps);
    AllPublishesKeepTwo(Ends(Start(size, threads), steps));
  }

  /** Begin and commit keep their connection; an ordinary call gives it back. */
  function Explicit(t: nat): seq<Step> { [Acquire(t), Abandon(t)] }
  function Ordinary(t: nat): seq<Step> { [Acquire(t), Release(t, t)] }

  /** The steps of one grayscale publish by thread `t` that nobody interrupts. */
  function Grayscale(t: nat): seq<Step> { Explicit(t) + Ordinary(t) + Explicit(t) }

  lemma {:induction false} RunConcat(p: Pool, a: seq<Step>, b: seq<Step>)
    ensures Run(p, a + b) == Run(Run(p, a), b)
  {
    if b == [] {
      assert a + b == a;
    } else {
      var m, all := |b| - 1, a + b;
      RunConcat(p, a, b[..m]);
      assert all[..|all| - 1] == a + b[..m] && all[|all| - 1] == b[m];
      assert Run(p, all) == Next(Run(p, a + b[..m]), b[m]);
    }
  }

  lemma RunTwo(p: Pool, a: Step, b: Step)
    ensures Run(p, [a, b]) == Next(Next(p, a), b)
  {
    assert [a, b][..1] == [a] && [a][..0] == [];
    assert Run(p, [a][..0]) == p;
    assert Run(p, [a]) == Next(p, a);
  }

  lemma RunGrayscale(p: Pool, t: nat)
    ensures Run(p, Grayscale(t)) == Run(Run(Run(p, Explicit(t)), Ordinary(t)), Explicit(t))
  {
    RunConcat(p, Explicit(t) + Ordinary(t), Explicit(t));
    RunConcat(p, Explicit(t), Ordinary(t));
  }

  lemma ExplicitCallTakesOne(p: Pool, t: nat)
    requires t < |p.threads| && p.threads[t] == Outside && p.idle != []
    ensures var q := Run(p, Explicit(t));
            q.threads == p.threads && q.idle == p.idle[1..] && |q.lost| == |p.lost| + 1
  {
    RunTwo(p, Acquire(t), Abandon(t));
    assert p.threads[t := Holding(p.idle[0])][t := Outside] == p.threads;
  }

  /** With nobody asleep to notify. */
  lemma OrdinaryCallGivesBack(p: Pool, t: nat)
    requires t < |p.threads| && p.threads[t] == Outside && p.idle != []
    requires forall u :: 0 <= u < |p.threads| ==> !p.threads[u].Waiting?
    ensures var q := Run(p, Ordinary(t));
            q.threads == p.threads && |q.idle| == |p.idle| && q.lost == p.lost
  {
    RunTwo(p, Acquire(t), Release(t, t));
    var held := Next(p, Acquire(t));
    FilterNone(Asleep(), held.threads);
    assert held.threads[t := Outside] == p.threads;
  }

  /** Any thread, among any others none of which waits. */
  lemma GrayscaleTakesTwo(p: Pool, t: nat)
    requires t < |p.threads| && p.threads[t] == Outside && |p.idle| >= 2
    requires forall u :: 0 <= u < |p.threads| ==> !p.threads[u].Waiting?
    ensures var q := Run(p, Grayscale(t));
            q.threads == p.threads && |q.idle| == |p.idle| - 2 && |q.lost| == |p.lost| + 2
  {
    RunGrayscale(p, t);
    var p1 := Run(p, Explicit(t));
    ExplicitCallTakesOne(p, t);
    OrdinaryCallGivesBack(p1, t);
    ExplicitCallTakesOne(Run(p1, Ordinary(t)), t);
  }

  /** A call that finds the pool empty leaves its thread asleep. */
  lemma CallSleeps(p: Pool, t: nat, finish: Step)
    requires t < |p.threads| && (p.threads[t] == Outside || p.threads[t] == Waiting(false)) && p.idle == []
    requires finish.t == t && (finish.Abandon? || finish.Release?)
    ensures Run(p, [Acquire(t), finish]) == p.(threads := p.threads[t := Waiting(false)])
  {
    RunTwo(p, Acquire(t), finish);
  }

  /** From an empty or a single-connection pool the publish loses what there is and falls asleep. */
  lemma GrayscaleSleeps(p: Pool, t: nat)
    requires t < |p.threads| && p.threads[t] == Outside && |p.idle| < 2
    ensures var q := Run(p, Grayscale(t));
            q.threads == p.threads[t := Waiting(false)] && q.idle == [] && |q.lost| == |p.lost| + |p.idle|
  {
    RunGrayscale(p, t);
    var p1 := Run(p, Explicit(t));
    if p.idle == [] { CallSleeps(p, t, Abandon(t)); } else { ExplicitCallTakesOne(p, t); }
    CallSleeps(p1, t, Release(t, t));
    CallSleeps(Run(p1, Ordinary(t)), t, Abandon(t));
  }

  /**
   * Once fewer than two connections are left and every thread is outside, the next grayscale publish,
   * by any thread, takes what is left and blocks; in no continuation does any thread hold a
   * connection again.
   */
  lemma NextGrayscaleBlocks(p: Pool, size: nat, t: nat, more: seq<Step>, u: nat)
    requires Inv(p, size) && t < |p.threads| && u < |p.threads| && |p.idle| < 2
    requires forall v :: 0 <= v < |p.threads| ==> p.threads[v] == Outside
    ensures var q := Run(p, Grayscale(t));
            && q.threads[t] == Waiting(false) && |q.lost| == size && Stuck(q)
            && !Run(q, more).threads[u].Holding?
  {
    var q := Run(p, Grayscale(t));
    FilterNone(Holds(), p.threads);
    GrayscaleSleeps(p, t);
    assert q.threads[t].Waiting?;
    RunInv(p, Grayscale(t), size);
    AllLostServesNobody(q, size, more, u);
  }
}
