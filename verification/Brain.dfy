/** The behaviour loop's decision logic: which goal and action it commits to, the per-goal
    cooldown after a failed search, and the watchdog over a running action. Ranking, planning
    and the action bodies are parameters. */
module Brain {
  import opened Bytes

  // ----- Replanning, as values -------------------------------------------------------------

  datatype Choice = Choice(goal: nat, action: nat)

  /** The cooldowns after the pass and the commitment, if any. */
  datatype Outcome = Outcome(until: seq<nat>, choice: Option<Choice>)

  predicate Cooling(until: seq<nat>, cooldown: nat, tick: nat, g: nat)
  {
    cooldown > 0 && g < |until| && until[g] > tick
  }

  /** A ranking of goals below `n`. */
  ghost predicate InRange(ranked: seq<nat>, n: nat)
  {
    forall e :: 0 <= e < |ranked| ==> ranked[e] < n
  }

  /** brain_replan over a ranking; `plan(g)` is the first action of a nonempty plan for `g`. */
  function Replan(until: seq<nat>, cooldown: nat, tick: nat, ranked: seq<nat>, plan: nat -> Option<nat>): (o: Outcome)
    requires InRange(ranked, |until|)
    ensures |o.until| == |until|
    decreases |ranked|
  {
    if ranked == [] then Outcome(until, None)
    else
      var g := ranked[0];
      if Cooling(until, cooldown, tick, g) then Replan(until, cooldown, tick, ranked[1..], plan)
      else if plan(g).Some? then Outcome(until, Some(Choice(g, plan(g).value)))
      else Replan(if cooldown > 0 then until[g := tick + cooldown] else until, cooldown, tick, ranked[1..], plan)
  }

  /** The first `n` ranked goals are cooling down or have no plan, and goal `n`, if there is one,
      is not cooling down and has one. */
  ghost predicate StopsAt(until: seq<nat>, cooldown: nat, tick: nat, ranked: seq<nat>, plan: nat -> Option<nat>, n: nat)
  {
    && n <= |ranked|
    && (forall i :: 0 <= i < n ==> Cooling(until, cooldown, tick, ranked[i]) || plan(ranked[i]).None?)
    && (n < |ranked| ==> !Cooling(until, cooldown, tick, ranked[n]) && plan(ranked[n]).Some?)
  }

  /** With cooldowns on, each of the first `n` ranked goals that was not cooling down now is, for
      `cooldown` ticks; every other goal's entry is as it was. */
  ghost predicate CooledDown(before: seq<nat>, after: seq<nat>, cooldown: nat, tick: nat, ranked: seq<nat>, n: nat)
    requires n <= |ranked|
  {
    && |after| == |before|
    && forall g :: 0 <= g < |before| ==>
         after[g] == if cooldown > 0 && before[g] <= tick && g in ranked[..n] then tick + cooldown else before[g]
  }

  /** The choice is the first ranked goal that is not cooling down and can be planned; the ones
      searched before it start their cooldowns, and nothing else changes. */
  lemma {:induction false} ReplanChoice(until: seq<nat>, cooldown: nat, tick: nat, ranked: seq<nat>,
                                        plan: nat -> Option<nat>) returns (n: nat)
    requires InRange(ranked, |until|)
    ensures var o := Replan(until, cooldown, tick, ranked, plan);
            && StopsAt(until, cooldown, tick, ranked, plan, n) && CooledDown(until, o.until, cooldown, tick, ranked, n)
            && o.choice == if n < |ranked| then Some(Choice(ranked[n], plan(ranked[n]).value)) else None
    decreases |ranked|
  {
    if ranked == [] {
      n := 0;
    } else {
      var g, rest := ranked[0], ranked[1..];
      if !Cooling(until, cooldown, tick, g) && plan(g).Some? {
        n := 0;
        assert ranked[..0] == [];
      } else {
        var u := if Cooling(until, cooldown, tick, g) || cooldown == 0 then until else until[g := tick + cooldown];
        var m := ReplanChoice(u, cooldown, tick, rest, plan);
        n := m + 1;
        assert Replan(until, cooldown, tick, ranked, plan) == Replan(u, cooldown, tick, rest, plan);
        hide Replan;
        StopShifts(until, u, cooldown, tick, ranked, plan, m);
        assert ranked[..n] == [g] + rest[..m];
      }
    }
  }

  lemma StopShifts(until: seq<nat>, u: seq<nat>, cooldown: nat, tick: nat, ranked: seq<nat>,
                   plan: nat -> Option<nat>, m: nat)
    requires ranked != [] && |u| == |until| && InRange(ranked, |until|)
    requires Cooling(until, cooldown, tick, ranked[0]) || plan(ranked[0]).None?
    requires u == if Cooling(until, cooldown, tick, ranked[0]) || cooldown == 0 then until
                  else until[ranked[0] := tick + cooldown]
    requires StopsAt(u, cooldown, tick, ranked[1..], plan, m)
    ensures StopsAt(until, cooldown, tick, ranked, plan, m + 1)
  {
    forall i | 0 <= i < m + 1 ensures Cooling(until, cooldown, tick, ranked[i]) || plan(ranked[i]).None? {
      if i > 0 { assert ranked[1..][i - 1] == ranked[i]; }
    }
    if m + 1 < |ranked| { assert ranked[1..][m] == ranked[m + 1]; }
  }

  // ----- Failed searches are spaced ------------------------------------------------------------

  /** One replanning pass at a tick. */
  datatype Pass = Pass(until: seq<nat>, tick: nat, ranked: seq<nat>, plan: nat -> Option<nat>)

  /** Passes of one brain: later ticks, cooldowns carried over, everything else free. */
  ghost predicate History(h: seq<Pass>, cooldown: nat)
  {
    && (forall n :: 0 <= n < |h| ==> InRange(h[n].ranked, |h[n].until|))
    && (forall n :: 0 <= n < |h| - 1 ==>
          && h[n].tick < h[n + 1].tick
          && h[n + 1].until == Replan(h[n].until, cooldown, h[n].tick, h[n].ranked, h[n].plan).until)
  }

  /** The pass runs the planner for goal `g`: nothing ranked before it is chosen, and it is not
      cooling down. */
  ghost predicate Searched(p: Pass, cooldown: nat, g: nat)
  {
    exists i :: 0 <= i < |p.ranked| && p.ranked[i] == g && !Cooling(p.until, cooldown, p.tick, g)
      && forall j :: 0 <= j < i ==> Cooling(p.until, cooldown, p.tick, p.ranked[j]) || p.plan(p.ranked[j]).None?
  }

  lemma FailedSearchCools(p: Pass, cooldown: nat, g: nat)
    requires InRange(p.ranked, |p.until|) && cooldown > 0 && Searched(p, cooldown, g) && p.plan(g).None?
    ensures var after := Replan(p.until, cooldown, p.tick, p.ranked, p.plan).until;
            g < |p.until| == |after| && after[g] == p.tick + cooldown
  {
    hide Replan;
    var n := ReplanChoice(p.until, cooldown, p.tick, p.ranked, p.plan);
    var i :| 0 <= i < |p.ranked| && p.ranked[i] == g && !Cooling(p.until, cooldown, p.tick, g)
      && forall j :: 0 <= j < i ==> Cooling(p.until, cooldown, p.tick, p.ranked[j]) || p.plan(p.ranked[j]).None?;
    assert i < n;
    assert p.ranked[..n][i] == g;
  }

  lemma {:induction false} CooldownKept(h: seq<Pass>, cooldown: nat, g: nat, a: nat, b: nat)
    requires History(h, cooldown) && cooldown > 0 && a < b < |h| && Searched(h[a], cooldown, g) && h[a].plan(g).None?
    ensures h[a].tick < h[b].tick && g < |h[b].until| && h[b].until[g] >= h[a].tick + cooldown
    decreases b
  {
    hide Replan, Searched;
    var p := h[b - 1];
    assert h[b - 1 + 1].until == Replan(p.until, cooldown, p.tick, p.ranked, p.plan).until;
    assert p.tick < h[b - 1 + 1].tick;
    if a == b - 1 {
      FailedSearchCools(p, cooldown, g);
    } else {
      CooldownKept(h, cooldown, g, a, b - 1);
      var n := ReplanChoice(p.until, cooldown, p.tick, p.ranked, p.plan);
    }
  }

  /** After a search of a goal that found no plan, the planner is not run for it again, with or
      without success, before the cooldown has passed. */
  lemma SearchesSpaced(h: seq<Pass>, cooldown: nat, g: nat, a: nat, b: nat)
    requires History(h, cooldown) && cooldown > 0 && a < b < |h|
    requires Searched(h[a], cooldown, g) && h[a].plan(g).None? && Searched(h[b], cooldown, g)
    ensures h[b].tick >= h[a].tick + cooldown
  {
    CooldownKept(h, cooldown, g, a, b);
  }

  // ----- The brain -----------------------------------------------------------------------------

  /** What running an action's body for one tick reported. */
  datatype Exec = NoSnapshot | ExecFailed | NotCommitted | Running | Done

  datatype Event = Idle | Replanned | ActionDone | Aborted

  class GoapBrain {
    var goal: Option<nat>
    var action: Option<nat>
    var progress: nat
    var maxActionTicks: nat
    var cooldown: nat
    const until: array<nat>
    var tick: nat

    /** An action runs for a goal. */
    ghost predicate Valid()
      reads this
    {
      action.Some? ==> goal.Some?
    }

    constructor (goals: nat, maxTicks: nat, cooldownTicks: nat)
      ensures Valid() && fresh(until) && until.Length == goals && action.None? && tick == 0
      ensures maxActionTicks == maxTicks && cooldown == cooldownTicks && forall g :: 0 <= g < goals ==> until[g] == 0
    {
      goal, action, progress, tick := None, None, 0, 0;
      maxActionTicks, cooldown := maxTicks, cooldownTicks;
      until := new nat[goals](_ => 0);
    }

    method SetMaxActionTicks(ticks: nat)
      requires Valid()
      modifies this`maxActionTicks
      ensures Valid() && maxActionTicks == ticks
    {
      maxActionTicks := ticks;
    }

    method SetGoalCooldownTicks(ticks: nat)
      requires Valid()
      modifies this`cooldown
      ensures Valid() && cooldown == ticks
    {
      cooldown := ticks;
    }

    /** The brain's state after a pass with outcome `o`. */
    ghost predicate Follows(o: Outcome)
      reads this, until
    {
      && until[..] == o.until
      && goal == (if o.choice.Some? then Some(o.choice.value.goal) else None)
      && action == (if o.choice.Some? then Some(o.choice.value.action) else None)
      && (o.choice.Some? ==> progress == 0)
    }

    /** brain_replan: the first ranked goal that is not cooling down and has a plan is taken, the
        goals searched before it start their cooldowns, and no other cooldown changes. */
    method ReplanNow(ranked: seq<nat>, plan: nat -> Option<nat>) returns (event: Event)
      requires InRange(ranked, until.Length)
      modifies this`goal, this`action, this`progress, until
      ensures Valid()
      ensures var o := Replan(old(until[..]), cooldown, tick, ranked, plan);
              Follows(o) && event == (if o.choice.Some? then Replanned else Idle)
      ensures exists n: nat ::
                && StopsAt(old(until[..]), cooldown, tick, ranked, plan, n)
                && CooledDown(old(until[..]), until[..], cooldown, tick, ranked, n)
                && goal == (if n < |ranked| then Some(ranked[n]) else None)
                && action == (if n < |ranked| then plan(ranked[n]) else None)
    {
      hide StopsAt, CooledDown, Replan;
      ghost var u := until[..];
      ghost var n := ReplanChoice(u, cooldown, tick, ranked, plan);
      event := ReplanLoop(ranked, plan);
      StopHasPlan(u, cooldown, tick, ranked, plan, n);
    }

    lemma StopHasPlan(u: seq<nat>, cd: nat, t: nat, ranked: seq<nat>, plan: nat -> Option<nat>, n: nat)
      requires StopsAt(u, cd, t, ranked, plan, n)
      ensures n <= |ranked| && (n < |ranked| ==> plan(ranked[n]).Some?)
    {}

    /** The loop over the ranking. */
    method ReplanLoop(ranked: seq<nat>, plan: nat -> Option<nat>) returns (event: Event)
      requires InRange(ranked, until.Length)
      modifies this`goal, this`action, this`progress, until
      ensures Valid()
      ensures var o := Replan(old(until[..]), cooldown, tick, ranked, plan);
              Follows(o) && event == (if o.choice.Some? then Replanned else Idle)
    {
      goal, action := None, None;
      ghost var u := until[..];
      var i := 0;
      while i < |ranked|
        invariant i <= |ranked| && goal.None? && action.None?
        invariant InRange(ranked[i..], until.Length)
        invariant Replan(u, cooldown, tick, ranked, plan) == Replan(until[..], cooldown, tick, ranked[i..], plan)
      {
        var g := ranked[i];
        assert ranked[i..][0] == g && ranked[i..][1..] == ranked[i + 1..];
        if !(cooldown > 0 && until[g] > tick) {
          var a := plan(g);
          if a.Some? {
            goal, action, progress := Some(g), a, 0;
            return Replanned;
          }
          if cooldown > 0 {
            ghost var before: seq<nat> := until[..];
            until[g] := tick + cooldown;
            ghost var next: nat := tick + cooldown;
            assert until[..] == before[g := next];
          }
        }
        i := i + 1;
      }
      event := Idle;
    }

    /** How a tick goes on once no action keeps running: it replans on a fresh snapshot of the
        blackboard, or fails without one. */
    ghost predicate Replans(snapshot: bool, o: Outcome, before: seq<nat>, ended: seq<Event>, rc: int,
                            events: seq<Event>)
      reads this, until
    {
      if snapshot then rc == 0 && Follows(o) && events == ended + [if o.choice.Some? then Replanned else Idle]
      else rc == -1 && action.None? && until[..] == before && events == ended
    }

    /** fleece_goap_brain_tick without the goal pool. `hasBody(a)` says whether action `a` has a
        runtime body, `run(a, p)` what its p-th run reports and `snapshot` whether replanning
        gets a blackboard; the body is not run at all on the tick the watchdog fires. Whenever
        no action keeps running, the same tick replans. */
    method Tick(hasBody: nat -> bool, run: (nat, nat) -> Exec, snapshot: bool, ranked: seq<nat>,
                plan: nat -> Option<nat>)
      returns (rc: int, events: seq<Event>)
      requires Valid() && InRange(ranked, until.Length)
      modifies this, until
      ensures Valid() && tick == old(tick) + 1 && maxActionTicks == old(maxActionTicks) && cooldown == old(cooldown)
      ensures var o, u := Replan(old(until[..]), cooldown, tick, ranked, plan), old(until[..]);
              if old(action.None?) then Replans(snapshot, o, u, [], rc, events)
              else
                var a, p := old(action).value, old(progress) + 1;
                if !hasBody(a) then Replans(snapshot, o, u, [ActionDone], rc, events)
                else if maxActionTicks > 0 && p >= maxActionTicks then Replans(snapshot, o, u, [Aborted], rc, events)
                else if run(a, p).Done? then Replans(snapshot, o, u, [ActionDone], rc, events)
                else
                  && events == [] && until[..] == u && goal == old(goal) && progress == p
                  && rc == (if run(a, p).NoSnapshot? || run(a, p).NotCommitted? then -1 else 0)
                  && action == if run(a, p).ExecFailed? then None else old(action)
    {
      hide Replan;
      tick := tick + 1;
      rc, events := 0, [];
      if action.Some? {
        var aborted := false;
        if hasBody(action.value) {
          progress := progress + 1;
          if maxActionTicks > 0 && progress >= maxActionTicks {
            aborted := true;
          } else {
            match run(action.value, progress)
            case NoSnapshot => return -1, [];
            case ExecFailed =>
              action := None;
              return;
            case NotCommitted => return -1, [];
            case Running => return;
            case Done =>
          }
        }
        action, progress := None, 0;
        events := [if aborted then Aborted else ActionDone];
      }
      if !snapshot { return -1, events; }
      var e := ReplanNow(ranked, plan);
      events := events + [e];
    }
  }

  // ----- The watchdog over runs --------------------------------------------------------------------

  /** What the world answers at one tick. */
  datatype Answers = Answers(hasBody: nat -> bool, run: (nat, nat) -> Exec, snapshot: bool, ranked: seq<nat>,
                             plan: nat -> Option<nat>)

  /** Over any sequence of ticks, whatever the world answers, a watched action ends within
      `maxActionTicks` ticks of its start: it completes, is aborted, or its body fails. */
  method RunToEnd(b: GoapBrain, world: nat -> Answers) returns (ticks: nat, events: seq<Event>)
    requires b.Valid() && b.action.Some? && b.maxActionTicks > 0
    requires forall t :: InRange(world(t).ranked, b.until.Length)
    modifies b, b.until
    ensures b.Valid() && 1 <= ticks && b.tick == old(b.tick) + ticks
    ensures ticks <= if old(b.progress) < b.maxActionTicks then b.maxActionTicks - old(b.progress) else 1
    ensures (events != [] && (events[0] == ActionDone || events[0] == Aborted)) || b.action.None?
  {
    hide InRange, Replan;
    ticks, events := 0, [];
    while true
      invariant b.Valid() && b.action.Some? && b.maxActionTicks == old(b.maxActionTicks)
      invariant b.tick == old(b.tick) + ticks && b.progress == old(b.progress) + ticks
      invariant ticks > 0 ==> b.progress < b.maxActionTicks
      decreases b.maxActionTicks - b.progress
    {
      var w, rc := world(b.tick), 0;
      rc, events := b.Tick(w.hasBody, w.run, w.snapshot, w.ranked, w.plan);
      ticks := ticks + 1;
      if events != [] || b.action.None? { break; }
    }
  }
}
