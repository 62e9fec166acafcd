/** When the runtime asks peers for an index: per-peer repair flags, the quiet period, the
    retry cooldown and the cap on handshakes started per tick. Ticks do not wrap. */
module Schedule {
  import opened Bytes
  import opened Sums

  /** FLEECE_RESYNC_STARTS_PER_TICK, _RETRY_TICKS, _QUIESCE_TICKS, _PROBE_TICKS */
  const STARTS_PER_TICK: nat := 2
  const RETRY_TICKS: nat := 8
  const QUIESCE_TICKS: nat := 5
  const PROBE_TICKS: nat := 100

  /** struct ResyncTarget. */
  datatype Target = Target(used: bool, node: U64, lastHeard: nat, need: bool, awaiting: bool, lastReq: nat)
  {
    /** A gap-driven request may go out, cap and quiet period aside. */
    predicate Due(tick: nat) { used && need && (!awaiting || tick - lastReq >= RETRY_TICKS) }

    predicate Probed(tick: nat) { used && tick - lastHeard >= PROBE_TICKS }
  }

  /** One pass over the first `n` targets; `starts` and `probes` list the targets a gap-driven
      request or a liveness probe was sent to. */
  datatype Pass = Pass(targets: seq<Target>, starts: seq<nat>, probes: seq<nat>)

  function Step(t: Target, tick: nat, quiet: bool, started: nat): (r: (Target, bool, bool))
  {
    var start := t.Due(tick) && quiet && started < STARTS_PER_TICK;
    var t1 := if start then t.(awaiting := true, lastReq := tick) else t;
    var probe := t.Probed(tick);
    (if probe then t1.(awaiting := true, lastHeard := tick) else t1, start, probe)
  }

  /** The loop of runtime_send_resync_requests. */
  function Serve(ts: seq<Target>, tick: nat, quiet: bool, n: nat): (p: Pass)
    requires n <= |ts|
    ensures |p.targets| == |ts|
  {
    if n == 0 then Pass(ts, [], []) else
      var p := Serve(ts, tick, quiet, n - 1);
      var (t, start, probe) := Step(ts[n - 1], tick, quiet, |p.starts|);
      Pass(p.targets[n - 1 := t],
           p.starts + if start then [n - 1] else [],
           p.probes + if probe then [n - 1] else [])
  }

  // ----- One tick -----------------------------------------------------------------------------

  /** At most two starts, none outside a quiet period, each to a different due target; a due
      target is passed over only when both starts are used up. */
  lemma {:induction false} ServeProperties(ts: seq<Target>, tick: nat, quiet: bool, n: nat)
    requires n <= |ts|
    ensures var p := Serve(ts, tick, quiet, n);
            && |p.starts| <= STARTS_PER_TICK && (!quiet ==> p.starts == [])
            && (forall e :: 0 <= e < |p.starts| ==> p.starts[e] < n && ts[p.starts[e]].Due(tick))
            && (forall d, e :: 0 <= d < e < |p.starts| ==> p.starts[d] < p.starts[e])
            && (forall i :: 0 <= i < n && ts[i].Due(tick) && quiet && i !in p.starts ==> |p.starts| == STARTS_PER_TICK)
  {
    hide Serve;
    ServeStarts(ts, tick, quiet, n);
    ServeSkips(ts, tick, quiet, n);
  }

  lemma {:induction false} ServeStarts(ts: seq<Target>, tick: nat, quiet: bool, n: nat)
    requires n <= |ts|
    ensures var p := Serve(ts, tick, quiet, n);
            && |p.starts| <= STARTS_PER_TICK && (!quiet ==> p.starts == [])
            && (forall e :: 0 <= e < |p.starts| ==> p.starts[e] < n && ts[p.starts[e]].Due(tick))
            && (forall d, e :: 0 <= d < e < |p.starts| ==> p.starts[d] < p.starts[e])
  {
    if n > 0 {
      ServeStarts(ts, tick, quiet, n - 1);
    }
  }

  lemma {:induction false} ServeSkips(ts: seq<Target>, tick: nat, quiet: bool, n: nat)
    requires n <= |ts|
    ensures var p := Serve(ts, tick, quiet, n);
            forall i :: 0 <= i < n && ts[i].Due(tick) && quiet && i !in p.starts ==> |p.starts| >= STARTS_PER_TICK
  {
    if n > 0 {
      ServeSkips(ts, tick, quiet, n - 1);
    }
  }

  /** A probe goes once to each known peer not heard for a hundred ticks, and to no other. */
  lemma ServeProbes(ts: seq<Target>, tick: nat, quiet: bool, n: nat)
    requires n <= |ts|
    ensures var probes := Serve(ts, tick, quiet, n).probes;
            && (forall i: nat :: i in probes <==> i < n && ts[i].used && tick - ts[i].lastHeard >= 100)
            && (forall d, e :: 0 <= d < e < |probes| ==> probes[d] < probes[e])
  {
    hide Serve;
    ProbesAscend(ts, tick, quiet, n);
    forall i: nat
      ensures i in Serve(ts, tick, quiet, n).probes <==> i < n && ts[i].used && tick - ts[i].lastHeard >= 100
    {
      ProbeOf(ts, tick, quiet, n, i);
    }
  }

  lemma {:induction false} ProbeOf(ts: seq<Target>, tick: nat, quiet: bool, n: nat, i: nat)
    requires n <= |ts|
    ensures i in Serve(ts, tick, quiet, n).probes <==> i < n && ts[i].used && tick - ts[i].lastHeard >= 100
  {
    if n > 0 {
      ProbeOf(ts, tick, quiet, n - 1, i);
      ProbesNext(ts, tick, quiet, n);
      hide Serve;
    } else {
      NoneYet(ts, tick, quiet);
    }
  }

  lemma {:induction false} ProbesAscend(ts: seq<Target>, tick: nat, quiet: bool, n: nat)
    requires n <= |ts|
    ensures var probes := Serve(ts, tick, quiet, n).probes;
            && (forall e :: 0 <= e < |probes| ==> probes[e] < n)
            && (forall d, e :: 0 <= d < e < |probes| ==> probes[d] < probes[e])
  {
    if n > 0 {
      ProbesAscend(ts, tick, quiet, n - 1);
      ProbesNext(ts, tick, quiet, n);
      hide Serve;
    } else {
      NoneYet(ts, tick, quiet);
    }
  }

  lemma ProbesNext(ts: seq<Target>, tick: nat, quiet: bool, n: nat)
    requires 0 < n <= |ts|
    ensures Serve(ts, tick, quiet, n).probes ==
            Serve(ts, tick, quiet, n - 1).probes + if ts[n - 1].Probed(tick) then [n - 1] else []
  {}

  /** What a pass leaves of target `i`, given whether a request was started to it. */
  predicate Left(was: Target, now: Target, started: bool, tick: nat)
  {
    && now.used == was.used && now.need == was.need && now.node == was.node
    && now.lastReq == (if started then tick else was.lastReq)
    && now.awaiting == (was.awaiting || started || was.Probed(tick))
    && now.lastHeard == (if was.Probed(tick) then tick else was.lastHeard)
  }

  lemma {:induction false} ServeTargets(ts: seq<Target>, tick: nat, quiet: bool, n: nat)
    requires n <= |ts|
    ensures var p := Serve(ts, tick, quiet, n);
            && (forall i :: n <= i < |ts| ==> p.targets[i] == ts[i])
            && (forall i :: 0 <= i < n ==> Left(ts[i], p.targets[i], i in p.starts, tick))
  {
    hide Serve, Step, Left;
    if n > 0 {
      ServeTargets(ts, tick, quiet, n - 1);
      ServeStarts(ts, tick, quiet, n - 1);
      OneMore(ts, tick, quiet, n);
    } else {
      NoneYet(ts, tick, quiet);
    }
  }

  lemma NoneYet(ts: seq<Target>, tick: nat, quiet: bool)
    ensures Serve(ts, tick, quiet, 0) == Pass(ts, [], [])
  {}

  /** The last target of a pass changes as its step says and the others not at all. */
  lemma OneMore(ts: seq<Target>, tick: nat, quiet: bool, n: nat)
    requires 0 < n <= |ts| && n - 1 !in Serve(ts, tick, quiet, n - 1).starts
    ensures var q, p := Serve(ts, tick, quiet, n - 1), Serve(ts, tick, quiet, n);
            && Left(ts[n - 1], p.targets[n - 1], n - 1 in p.starts, tick)
            && (forall i :: 0 <= i < |ts| && i != n - 1 ==> p.targets[i] == q.targets[i])
            && (forall i :: i != n - 1 ==> (i in p.starts <==> i in q.starts))
  {
    var q := Serve(ts, tick, quiet, n - 1);
    var started := Step(ts[n - 1], tick, quiet, |q.starts|).1;
    assert Serve(ts, tick, quiet, n).starts == if started then q.starts + [n - 1] else q.starts;
  }

  // ----- Runs -----------------------------------------------------------------------------------

  /** The targets as the scheduler finds them at one tick. */
  datatype Moment = Moment(targets: seq<Target>, tick: nat, quiet: bool)

  function Starts(m: Moment): seq<nat>
  {
    Serve(m.targets, m.tick, m.quiet, |m.targets|).starts
  }

  /** Receive handlers may set and clear flags and admit peers, but they never drop a peer or
      touch its request time. */
  ghost predicate Handled(ts: seq<Target>, ts': seq<Target>)
  {
    |ts'| == |ts| && forall i :: 0 <= i < |ts| && ts[i].used ==> ts'[i].used && ts'[i].lastReq == ts[i].lastReq
  }

  ghost predicate Follows(m: Moment, m': Moment)
  {
    m'.tick == m.tick + 1 && Handled(Serve(m.targets, m.tick, m.quiet, |m.targets|).targets, m'.targets)
  }

  ghost predicate Run(run: seq<Moment>)
  {
    forall n :: 0 <= n < |run| - 1 ==> Follows(run[n], run[n + 1])
  }

  /** While target `i` is unanswered after the request of moment `a`, its request time stays. */
  lemma {:induction false} RequestTimeKept(run: seq<Moment>, i: nat, a: nat, b: nat)
    requires Run(run) && a < b < |run| && i < |run[a].targets| && i in Starts(run[a])
    requires forall n :: a < n < b ==> i !in Starts(run[n])
    ensures |run[b].targets| == |run[a].targets| && run[b].tick == run[a].tick + (b - a)
    ensures run[b].targets[i].used && run[b].targets[i].lastReq == run[a].tick
    decreases b
  {
    hide Serve;
    assert Follows(run[b - 1], run[b - 1 + 1]);
    ServeTargets(run[b - 1].targets, run[b - 1].tick, run[b - 1].quiet, |run[b - 1].targets|);
    ServeProperties(run[b - 1].targets, run[b - 1].tick, run[b - 1].quiet, |run[b - 1].targets|);
    if b - 1 > a {
      RequestTimeKept(run, i, a, b - 1);
    }
  }

  /** Unanswered gap-driven requests to one peer are at least eight ticks apart. */
  lemma {:induction false} RetriesSpaced(run: seq<Moment>, i: nat, a: nat, b: nat)
    requires Run(run) && a < b < |run| && i < |run[a].targets|
    requires i in Starts(run[a]) && i in Starts(run[b])
    requires forall n :: a < n <= b ==> i < |run[n].targets| && run[n].targets[i].awaiting
    ensures run[b].tick >= run[a].tick + 8
    decreases b - a
  {
    hide Serve;
    if c :| a < c < b && i in Starts(run[c]) {
      RetriesSpaced(run, i, a, c);
      TicksGrow(run, c, b);
    } else {
      RequestTimeKept(run, i, a, b);
      ServeProperties(run[b].targets, run[b].tick, run[b].quiet, |run[b].targets|);
    }
  }

  lemma {:induction false} TicksGrow(run: seq<Moment>, a: nat, b: nat)
    requires Run(run) && a <= b < |run|
    ensures run[b].tick == run[a].tick + (b - a)
    decreases b
  {
    if a < b {
      TicksGrow(run, a, b - 1);
      assert Follows(run[b - 1], run[b - 1 + 1]);
    }
  }

  /** Liveness probes are not spaced from these: a peer in need that has been silent long enough
      is sent both in one tick, and a probe may follow an unanswered request at once. */
  lemma ProbesCoincide()
    ensures var t := Target(true, 7, 0, true, false, 0);
            var p := Serve([t], 100, true, 1);
            p.starts == [0] && p.probes == [0]
    ensures var t := Target(true, 7, 1, true, true, 100);
            var p := Serve([t], 101, true, 1);
            p.starts == [] && p.probes == [0]
  {
    var t := Target(true, 7, 0, true, false, 0);
    assert Serve([t], 100, true, 0) == Pass([t], [], []);
    var u := Target(true, 7, 1, true, true, 100);
    assert Serve([u], 101, true, 0) == Pass([u], [], []);
  }

  // ----- Service within eight quiet ticks --------------------------------------------------------

  /** No replies, no new flags, no probes: the scheduler alone changes the targets. */
  ghost predicate Undisturbed(run: seq<Moment>)
  {
    && (forall n :: 0 <= n < |run| ==> run[n].quiet && run[n].tick == run[0].tick + n
                                       && forall i :: 0 <= i < |run[n].targets| ==>
                                            !run[n].targets[i].Probed(run[n].tick))
    && (forall n :: 0 <= n < |run| - 1 ==>
          run[n + 1].targets == Serve(run[n].targets, run[n].tick, true, |run[n].targets|).targets)
  }

  ghost function InNeed(ts: seq<Target>): set<nat>
  {
    set i: nat | i < |ts| && ts[i].used && ts[i].need
  }

  ghost function StartSet(m: Moment): set<nat>
  {
    set i | i in Starts(m)
  }

  /** Targets started at moments before `n`. */
  ghost function Started(run: seq<Moment>, n: nat): set<nat>
    requires n <= |run|
  {
    if n == 0 then {} else Started(run, n - 1) + StartSet(run[n - 1])
  }

  /** Every target of `xs` has an unanswered request no older than `since`. */
  ghost predicate Recent(ts: seq<Target>, xs: set<nat>, since: nat)
  {
    forall x :: x in xs ==> x < |ts| && ts[x].awaiting && ts[x].lastReq >= since
  }

  lemma StartSetSize(m: Moment)
    requires |Starts(m)| == STARTS_PER_TICK && Starts(m)[0] < Starts(m)[1]
    ensures |StartSet(m)| == STARTS_PER_TICK
  {
    var st := Starts(m);
    assert StartSet(m) == {st[0], st[1]};
  }

  /** Passing over a due target takes two starts, to targets not asked in the last eight
      ticks. */
  lemma PassOver(m: Moment, m': Moment, i: nat, asked: set<nat>, since: nat)
    requires m.quiet && m'.targets == Serve(m.targets, m.tick, true, |m.targets|).targets
    requires forall x :: 0 <= x < |m.targets| ==> !m.targets[x].Probed(m.tick)
    requires i < |m.targets| && m.targets[i].Due(m.tick) && i !in StartSet(m)
    requires Recent(m.targets, asked, since) && m.tick < since + RETRY_TICKS
    ensures |StartSet(m)| == STARTS_PER_TICK && StartSet(m) !! asked && StartSet(m) <= InNeed(m.targets) - {i}
  {
    ServeProperties(m.targets, m.tick, true, |m.targets|);
    hide Serve;
    assert i !in Starts(m);
    StartSetSize(m);
    forall x | x in StartSet(m) ensures x !in asked && x in InNeed(m.targets) - {i} {
      assert x in Starts(m);
    }
  }

  lemma AfterPass(m: Moment, m': Moment, i: nat, asked: set<nat>, since: nat)
    requires m.quiet && m'.targets == Serve(m.targets, m.tick, true, |m.targets|).targets
    requires forall x :: 0 <= x < |m.targets| ==> !m.targets[x].Probed(m.tick)
    requires i < |m.targets| && i !in StartSet(m)
    requires Recent(m.targets, asked, since) && m.tick >= since
    ensures |m'.targets| == |m.targets| && m'.targets[i] == m.targets[i]
    ensures InNeed(m'.targets) == InNeed(m.targets) && Recent(m'.targets, asked + StartSet(m), since)
  {
    ServeTargets(m.targets, m.tick, true, |m.targets|);
    ServeProperties(m.targets, m.tick, true, |m.targets|);
    hide Serve;
    assert i !in Starts(m);
  }

  /** While the waiting target is passed over, every tick starts two further targets. */
  lemma {:induction false} PassedOver(run: seq<Moment>, i: nat, n: nat)
    requires Undisturbed(run) && n < |run| && n <= RETRY_TICKS
    requires i < |run[0].targets| && run[0].targets[i].Due(run[0].tick) && i !in Started(run, n)
    ensures |Started(run, n)| == STARTS_PER_TICK * n && Started(run, n) <= InNeed(run[0].targets) - {i}
    ensures |run[n].targets| == |run[0].targets| && InNeed(run[n].targets) == InNeed(run[0].targets)
    ensures run[n].targets[i] == run[0].targets[i] && Recent(run[n].targets, Started(run, n), run[0].tick)
  {
    hide Serve, StartSet, InNeed;
    if n > 0 {
      PassedOver(run, i, n - 1);
      var m := run[n - 1];
      assert run[n - 1 + 1].targets == Serve(m.targets, m.tick, true, |m.targets|).targets;
      PassOver(m, run[n], i, Started(run, n - 1), run[0].tick);
      AfterPass(m, run[n], i, Started(run, n - 1), run[0].tick);
    }
  }

  /** With at most sixteen peers in need, a due peer is served within eight quiet ticks. */
  lemma ServedWithinEight(run: seq<Moment>, i: nat)
    requires Undisturbed(run) && |run| > 8
    requires i < |run[0].targets| && run[0].targets[i].Due(run[0].tick)
    requires |InNeed(run[0].targets)| <= 16
    ensures exists n :: 0 <= n < 8 && i in Starts(run[n])
  {
    var need := InNeed(run[0].targets);
    assert i in need;
    hide Serve, InNeed, Undisturbed, Started, StartSet;
    if i !in Started(run, RETRY_TICKS) {
      PassedOver(run, i, RETRY_TICKS);
      SubsetSize(Started(run, RETRY_TICKS), need - {i});
      assert false;
    }
    StartedAt(run, i, RETRY_TICKS);
  }

  lemma {:induction false} StartedAt(run: seq<Moment>, i: nat, n: nat)
    requires n <= |run| && i in Started(run, n)
    ensures exists m :: 0 <= m < n && i in Starts(run[m])
  {
    if i in Started(run, n - 1) {
      StartedAt(run, i, n - 1);
    }
  }

  /** Until it is asked, a peer in need waits unchanged. */
  lemma {:induction false} Waits(run: seq<Moment>, i: nat, n: nat)
    requires Undisturbed(run) && n < |run| && i < |run[0].targets|
    requires forall m :: 0 <= m < n ==> i !in Starts(run[m])
    ensures |run[n].targets| == |run[0].targets| && run[n].targets[i] == run[0].targets[i]
    ensures InNeed(run[n].targets) == InNeed(run[0].targets)
  {
    hide Serve, InNeed;
    if n > 0 {
      Waits(run, i, n - 1);
      var m := run[n - 1];
      assert run[n - 1 + 1].targets == Serve(m.targets, m.tick, true, |m.targets|).targets;
      AfterPass(m, run[n], i, {}, 0);
    }
  }

  /** With at most sixteen peers in need, each of them is asked within sixteen quiet ticks, even if
      an earlier request to it has just gone out. */
  lemma AskedWithinSixteen(run: seq<Moment>, i: nat)
    requires Undisturbed(run) && |run| > 16 && |InNeed(run[0].targets)| <= 16
    requires i < |run[0].targets| && run[0].targets[i].used && run[0].targets[i].need
    requires run[0].targets[i].lastReq <= run[0].tick
    ensures exists n :: 0 <= n < 16 && i in Starts(run[n])
  {
    hide Serve, InNeed;
    if forall n :: 0 <= n < 8 ==> i !in Starts(run[n]) {
      Waits(run, i, 8);
      var rest := run[8..];
      assert rest[0] == run[8];
      assert Undisturbed(rest) by { LaterUndisturbed(run, 8); }
      ServedWithinEight(rest, i);
      var n :| 0 <= n < 8 && i in Starts(rest[n]);
      assert rest[n] == run[n + 8];
    }
  }

  lemma LaterUndisturbed(run: seq<Moment>, k: nat)
    requires Undisturbed(run) && k < |run|
    ensures Undisturbed(run[k..])
  {
    hide Serve;
    var rest := run[k..];
    forall n | 0 <= n < |rest|
      ensures rest[n].quiet && rest[n].tick == rest[0].tick + n
              && forall i :: 0 <= i < |rest[n].targets| ==> !rest[n].targets[i].Probed(rest[n].tick)
    {
      assert rest[n] == run[k + n];
    }
    forall n | 0 <= n < |rest| - 1
      ensures rest[n + 1].targets == Serve(rest[n].targets, rest[n].tick, true, |rest[n].targets|).targets
    {
      assert rest[n] == run[k + n] && rest[n + 1] == run[k + n + 1];
    }
  }
}
