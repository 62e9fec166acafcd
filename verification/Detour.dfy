/** A problem whose only plan fits the depth limit and is not found: its goal state is generated
    first on a cheap detour, one action too deep, and stays closed afterwards. */
module Detour {
  import opened Bytes
  import opened Planner
  import opened Frontier
  import opened Search
  import Heap

  /** Places 0 .. 4. The detour 0 - 1 - 2 - 4 is free, the way 0 - 3 - 4 starts at cost 10. */
  function From(a: nat): nat { if a == 0 || a == 3 then 0 else if a == 1 then 1 else if a == 2 then 2 else 3 }

  function To(a: nat): nat { if a == 0 then 1 else if a == 1 then 2 else if a == 3 then 3 else 4 }

  function Roads(): Domain<nat>
  {
    Domain(5, (a: nat, s: nat) => s == From(a), (a: nat, s: nat) => Some(To(a)), (g: nat, s: nat) => s == 4,
           (a: nat, s: nat) => Some(if a == 3 then 10.0 else 0.0), (s: nat) => if s < 256 then [s] else [])
  }

  /** Reach place 4 within two actions. */
  function Trip(): Problem<nat> { Problem(Roads(), 0, [0], 10, 10, 2) }

  lemma TwoActionsSuffice()
    ensures Solves(Roads(), 0, [0], [3, 4]) && |[3, 4]| <= Trip().maxDepth
  {
    var d := Roads();
    assert [3, 4][1..] == [4] && [4][1..] == [];
    assert Replay(d, 4, []) == Some(4);
    assert Replay(d, 3, [4]) == Some(4);
  }

  // ----- The frontier after each expansion -------------------------------------------------------

  const N0: Node<nat> := Node(0, None, 0, 0, 0.0)
  const N1: Node<nat> := Node(1, Some(0), 0, 1, 0.0)
  const N2: Node<nat> := Node(3, Some(0), 3, 1, 10.0)
  const N3: Node<nat> := Node(2, Some(1), 1, 2, 0.0)
  const E0: Heap.Entry := Heap.Entry(1.0, 0)
  const E1: Heap.Entry := Heap.Entry(1.0, 1)
  const E2: Heap.Entry := Heap.Entry(11.0, 2)
  const E3: Heap.Entry := Heap.Entry(1.0, 3)

  ghost function At(i: nat): Frontier<nat>
  {
    if i == 0 then Frontier([N0], multiset{E0}, {[0]})
    else if i == 1 then Frontier([N0, N1, N2], multiset{E1, E2}, {[0], [1], [3]})
    else if i == 2 then Frontier([N0, N1, N2, N3], multiset{E2, E3}, {[0], [1], [3], [2]})
    else if i == 3 then Frontier([N0, N1, N2, N3], multiset{E2}, {[0], [1], [3], [2], [4]})
    else Frontier([N0, N1, N2, N3], multiset{}, {[0], [1], [3], [2], [4]})
  }

  const POPS: seq<Heap.Entry> := [E0, E1, E3, E2]

  lemma Missing(s: nat)
    ensures Unsatisfied(Roads(), [0], s) == if s == 4 then 0 else 1
  {
    assert [0][..0] == [];
    assert Unsatisfied(Roads(), [], s) == 0;
  }

  lemma Skip(f: Frontier<nat>, n: nat, a: nat)
    requires n < |f.nodes| && f.nodes[n].state != From(a)
    ensures Try(Trip(), f, n, a) == f
  {}

  /** A road to a new place, within the depth limit or past it. */
  lemma Take(f: Frontier<nat>, n: nat, a: nat)
    requires n < |f.nodes| && f.nodes[n].state == From(a) && [To(a)] !in f.keys && |f.keys| < 21
    ensures var x := f.nodes[n];
            var y := Node(To(a), Some(n), a, x.depth + 1, x.g + if a == 3 then 10.0 else 0.0);
            Try(Trip(), f, n, a) ==
              if x.depth + 1 > 2 then f.(keys := f.keys + {[To(a)]})
              else
                var e := Heap.Entry(y.g + (if To(a) == 4 then 0.0 else 1.0), |f.nodes|);
                Frontier(f.nodes + [y], f.open + multiset{e}, f.keys + {[To(a)]})
  {
    Missing(To(a));
    hide Unsatisfied;
  }

  lemma Expand0()
    ensures Expand(Trip(), At(0), E0) == At(1)
  {
    hide Try, Roads;
    var f := At(0).(open := multiset{});
    assert At(0).open - multiset{E0} == multiset{};
    Take(f, 0, 0);
    var f1 := TryUpTo(Trip(), f, 0, 1);
    assert f1 == Frontier([N0, N1], multiset{E1}, {[0], [1]});
    Skip(f1, 0, 1);
    Skip(f1, 0, 2);
    assert TryUpTo(Trip(), f, 0, 2) == f1;
    assert TryUpTo(Trip(), f, 0, 3) == f1;
    Take(f1, 0, 3);
    Skip(At(1), 0, 4);
    assert TryUpTo(Trip(), f, 0, 4) == At(1);
    assert TryUpTo(Trip(), f, 0, 5) == At(1);
    FiveRoads();
  }

  lemma FiveRoads()
    ensures Trip().d.actions == 5
  {}

  lemma Expand1()
    ensures Expand(Trip(), At(1), E1) == At(2)
  {
    hide Try, Roads;
    var f := At(1).(open := multiset{E2});
    assert At(1).open - multiset{E1} == multiset{E2};
    Skip(f, 1, 0);
    assert TryUpTo(Trip(), f, 1, 1) == f;
    Take(f, 1, 1);
    assert TryUpTo(Trip(), f, 1, 2) == At(2);
    Skip(At(2), 1, 2);
    Skip(At(2), 1, 3);
    Skip(At(2), 1, 4);
    assert TryUpTo(Trip(), f, 1, 3) == At(2);
    assert TryUpTo(Trip(), f, 1, 4) == At(2);
    FiveRoads();
  }

  /** Place 4 is generated three actions deep: dropped, but closed. */
  lemma Expand2()
    ensures Expand(Trip(), At(2), E3) == At(3)
  {
    hide Try, Roads;
    var f := At(2).(open := multiset{E2});
    assert At(2).open - multiset{E3} == multiset{E2};
    Skip(f, 3, 0);
    Skip(f, 3, 1);
    assert TryUpTo(Trip(), f, 3, 1) == f;
    assert TryUpTo(Trip(), f, 3, 2) == f;
    Take(f, 3, 2);
    assert TryUpTo(Trip(), f, 3, 3) == At(3);
    Skip(At(3), 3, 3);
    Skip(At(3), 3, 4);
    assert TryUpTo(Trip(), f, 3, 4) == At(3);
    FiveRoads();
  }

  /** So the short way to it adds nothing. */
  lemma Expand3()
    ensures Expand(Trip(), At(3), E2) == At(4)
  {
    hide Roads;
    var f := At(4);
    assert At(3).open - multiset{E2} == multiset{};
    Skip(f, 2, 0);
    Skip(f, 2, 1);
    Skip(f, 2, 2);
    Skip(f, 2, 3);
    Closed(f);
    hide Try;
    assert TryUpTo(Trip(), f, 2, 1) == f;
    assert TryUpTo(Trip(), f, 2, 2) == f;
    assert TryUpTo(Trip(), f, 2, 3) == f;
    assert TryUpTo(Trip(), f, 2, 4) == f;
    FiveRoads();
  }

  lemma Closed(f: Frontier<nat>)
    requires f == At(4)
    ensures Try(Trip(), f, 2, 4) == f
  {
    assert [4] in f.keys;
  }

  /** The costs leave no choice of what to pop. */
  lemma Forced(n: nat, e: Heap.Entry)
    requires n <= 4 && CanPop(Trip(), At(n), e, n)
    ensures n < 4 && e == POPS[n] && Expand(Trip(), At(n), e) == At(n + 1)
  {
    hide Expand;
    if n == 0 { Expand0(); }
    else if n == 1 { assert E1 in At(1).open; Expand1(); }
    else if n == 2 { assert E3 in At(2).open; Expand2(); }
    else if n == 3 { Expand3(); }
  }

  /** Every run expands these entries, in this order. */
  lemma {:induction false} OnlyRun(pops: seq<Heap.Entry>)
    requires Run(Trip(), pops)
    ensures |pops| <= 4 && pops == POPS[..|pops|] && After(Trip(), pops) == At(|pops|)
    decreases |pops|
  {
    hide Expand, Trip, CanPop, Met, At;
    if pops == [] {
      Start();
    } else {
      var n := |pops| - 1;
      OnlyRun(pops[..n]);
      Forced(n, pops[n]);
      assert pops == pops[..n] + [pops[n]];
    }
  }

  lemma NeverThere(i: nat, n: nat)
    ensures !Met(Trip(), At(i), n)
  {
    var f := At(i);
    if n < |f.nodes| {
      assert f.nodes[n] == N0 || f.nodes[n] == N1 || f.nodes[n] == N2 || f.nodes[n] == N3;
      assert !Trip().d.met(Trip().targets[0], f.nodes[n].state);
    }
  }

  lemma Start()
    ensures Begin(Trip()) == At(0)
  {
    Missing(0);
  }

  /** A solving plan of two actions exists, the depth limit is two, and no plan is returned. */
  method PlanMissed() returns (plan: Option<Plan>)
    ensures plan.None? && Solvable(Trip())
    ensures exists path :: Solves(Roads(), 0, [0], path) && |path| <= Trip().maxDepth
  {
    hide Run, After, Met, Expand;
    ghost var pops, goal;
    var a, b, c;
    plan, a, b, c, pops, goal := FindPlan(Trip());
    OnlyRun(pops);
    if goal.Some? { NeverThere(|pops|, goal.value); }
    TwoActionsSuffice();
  }

  // ----- A table that wraps -----------------------------------------------------------------------

  function OneRoad(): Domain<nat>
  {
    Domain(1, (a: nat, s: nat) => s == 0, (a: nat, s: nat) => Some(1), (g: nat, s: nat) => s == 1,
           (a: nat, s: nat) => Some(0.0), (s: nat) => if s < 256 then [s] else [])
  }

  /** Two places, one road, and a node budget of 2^31: the visited table has one slot. */
  function Hop(): Problem<nat> { Problem(OneRoad(), 0, [0], 0x8000_0000, 10, 2) }

  lemma {:induction false} HopStates(s: nat, path: seq<nat>)
    requires s <= 1 && Replay(OneRoad(), s, path).Some?
    ensures Replay(OneRoad(), s, path).value <= 1
    decreases |path|
  {
    if path != [] { HopStates(1, path[1..]); }
  }

  lemma HopIsCovered()
    ensures Space(Hop(), {0, 1}) && |{0, 1}| <= Hop().maxNodes
    ensures |{0, 1}| < Hop().maxIters && |{0, 1}| <= Hop().maxDepth + 1
    ensures Solves(OneRoad(), 0, [0], [0]) && Slots(Hop()) == 1
  {
    forall path | Replay(OneRoad(), 0, path).Some? ensures Replay(OneRoad(), 0, path).value in {0, 1} {
      HopStates(0, path);
    }
    assert [0][1..] == [];
    assert Replay(OneRoad(), 1, []) == Some(1);
  }

  /** The budgets cover both states, one action solves the problem, and no plan is returned. */
  method TableWraps() returns (plan: Option<Plan>)
    ensures plan.None? && Solvable(Hop())
  {
    hide Run, After, Solves, Space;
    HopIsCovered();
    ghost var pops, goal;
    var a, b, c;
    plan, a, b, c, pops, goal := FindPlan(Hop());
    OneSlotStays(Hop(), pops);
    assert !Hop().d.met(Hop().targets[0], Hop().start);
  }
}
