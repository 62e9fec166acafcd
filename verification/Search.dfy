/** The search in its own form: a heap, a visited table and a growing node list updated in
    place. Each step is tied to the machine of Frontier. */
module Search {
  import opened Bytes
  import opened Planner
  import opened Frontier
  import Heap
  import Visited

  /** What the three structures hold together. */
  ghost function Held<S>(nodes: seq<Node<S>>, items: seq<Heap.Entry>, keys: set<Visited.Key>): Frontier<S>
  {
    Frontier(nodes, multiset(items), keys)
  }

  /** One round of the action loop. */
  method TryAction<S(!new)>(p: Problem<S>, nodes0: seq<Node<S>>, n: nat, a: nat,
                            heap: Heap.MinHeap, visited: Visited.VisitedSet) returns (nodes: seq<Node<S>>)
    requires n < |nodes0| && heap.Valid() && visited.Valid() && visited.slots.Length == Slots(p)
    modifies heap, visited, visited.slots
    ensures heap.Valid() && visited.Valid()
    ensures Held(nodes, heap.items, visited.Contents())
         == Try(p, old(Held(nodes0, heap.items, visited.Contents())), n, a)
  {
    hide Heap.HeapOrder, Visited.VisitedSet.Valid, Visited.VisitedSet.Contents, Unsatisfied, Slots, Try,
         Domain.CostOf;
    ghost var f := Held(nodes0, heap.items, visited.Contents());
    TryCases(p, f, n, a);
    nodes := nodes0;
    var x := nodes[n];
    if !p.d.pre(a, x.state) { return; }
    var c := p.d.CostOf(a, x.state);
    var next := p.d.apply(a, x.state);
    if next.None? { return; }
    var added := Record(visited, p.d.key(next.value));
    if !added || x.depth + 1 > p.maxDepth { return; }
    var y := Node(next.value, Some(n), a, x.depth + 1, x.g + c);
    heap.Push(|nodes|, y.g + Unsatisfied(p.d, p.targets, y.state) as real);
    nodes := nodes + [y];
  }

  /** A key is added exactly when it is new and the table holds fewer keys than slots. */
  method Record(visited: Visited.VisitedSet, key: Visited.Key) returns (added: bool)
    requires visited.Valid()
    modifies visited, visited.slots
    ensures visited.Valid()
    ensures added <==> key !in old(visited.Contents()) && |old(visited.Contents())| < visited.slots.Length
    ensures visited.Contents() == if added then old(visited.Contents()) + {key} else old(visited.Contents())
  {
    hide Visited.Keys, Visited.Chained, Visited.Distinct, Visited.HasFree;
    RoomByCount(visited);
    added := visited.Add(key);
  }

  lemma TryCases<S>(p: Problem<S>, f: Frontier<S>, n: nat, a: nat)
    requires n < |f.nodes|
    ensures var x, r := f.nodes[n], Try(p, f, n, a);
            if !p.d.pre(a, x.state) || p.d.apply(a, x.state).None? then r == f else
              var t := p.d.apply(a, x.state).value;
              if p.d.key(t) in f.keys || |f.keys| >= Slots(p) then r == f
              else if x.depth + 1 > p.maxDepth then r == f.(keys := f.keys + {p.d.key(t)})
              else
                var y := Node(t, Some(n), a, x.depth + 1, x.g + p.d.CostOf(a, x.state));
                && r.nodes == f.nodes + [y] && r.keys == f.keys + {p.d.key(t)}
                && r.open == f.open + multiset{Heap.Entry(y.g + Unsatisfied(p.d, p.targets, t) as real, |f.nodes|)}
  {
    hide Unsatisfied, Slots;
  }

  /** A slot is free exactly while the table holds fewer keys than slots. */
  lemma RoomByCount(visited: Visited.VisitedSet)
    requires visited.Valid()
    ensures Visited.HasFree(visited.slots[..]) <==> |visited.Contents()| < visited.slots.Length
  {
    Visited.FullCount(visited.slots[..]);
    if Visited.HasFree(visited.slots[..]) { Visited.FreeCount(visited.slots[..]); }
  }

  /** The action loop of one iteration. */
  method TryActions<S(!new)>(p: Problem<S>, nodes0: seq<Node<S>>, n: nat,
                             heap: Heap.MinHeap, visited: Visited.VisitedSet) returns (nodes: seq<Node<S>>)
    requires n < |nodes0| && heap.Valid() && visited.Valid() && visited.slots.Length == Slots(p)
    modifies heap, visited, visited.slots
    ensures heap.Valid() && visited.Valid()
    ensures Held(nodes, heap.items, visited.Contents())
         == TryUpTo(p, old(Held(nodes0, heap.items, visited.Contents())), n, p.d.actions)
  {
    hide Heap.HeapOrder, Visited.Keys, Visited.Chained, Visited.Distinct, Try;
    nodes := nodes0;
    for a := 0 to p.d.actions
      invariant heap.Valid() && visited.Valid() && n < |nodes|
      invariant Held(nodes, heap.items, visited.Contents())
             == TryUpTo(p, old(Held(nodes0, heap.items, visited.Contents())), n, a)
    {
      nodes := TryAction(p, nodes, n, a, heap, visited);
    }
  }

  datatype Plan = Plan(actions: seq<nat>, cost: real, iters: nat)

  ghost predicate Solvable<S(!new)>(p: Problem<S>)
  {
    exists path :: Solves(p.d, p.start, p.targets, path)
  }

  /** fleece_goap_plan. The search is a run of Frontier's machine. A returned plan replays from
      the start state, every precondition holding where it is applied, ends where every target
      is met, costs what it says and respects the depth limit. With budgets that cover the
      reachable states a plan is returned if and only if one exists; and without a plan, a
      search that stayed inside its budgets and cut nothing proves that there is none. */
  method FindPlan<S(!new)>(p: Problem<S>)
    returns (plan: Option<Plan>, nodeCount: nat, iters: nat, recorded: nat, ghost pops: seq<Heap.Entry>,
             ghost goal: Option<nat>)
    requires p.maxNodes > 0 && Slots(p) <= Visited.MAX_PROBED
    ensures Outcome(p, pops, goal) && (plan.Some? <==> goal.Some?)
    ensures plan.Some? ==> Solves(p.d, p.start, p.targets, plan.value.actions)
    ensures plan.Some? ==> plan.value.cost == TotalCost(p.d, p.start, plan.value.actions)
    ensures plan.Some? ==> |plan.value.actions| <= p.maxDepth
    ensures nodeCount <= p.maxNodes + p.d.actions && iters <= p.maxIters && iters <= nodeCount
    ensures KeysIdentify(p.d) && (exists states :: Roomy(p, states)) ==> (plan.Some? <==> Solvable(p))
    ensures (plan.None? && KeysIdentify(p.d) && nodeCount <= p.maxNodes && iters < p.maxIters
             && recorded < Slots(p) && !TooDeep(p.d, p.start, p.maxDepth)) ==> !Solvable(p)
  {
    hide NodesOk, Heap.HeapOrder, Visited.Keys, Visited.Chained, Visited.Distinct, Visited.HasFree, TotalCost, Solves,
         TryUpTo, Sound, Expanded, KeysIdentify, Roomy, Solvable, TooDeep, Unsatisfied, Slots, Outcome, CanPop, Met,
         Run, After, Expand, Begin, PathTo;
    SlotsAre(p);
    var visited := new Visited.VisitedSet(p.maxNodes);
    var heap := new Heap.MinHeap();
    var nodes := [Node(p.start, None, 0, 0, 0.0)];
    var _ := visited.Add(p.d.key(p.start));
    heap.Push(0, Unsatisfied(p.d, p.targets, p.start) as real);
    Started(p, heap.items, visited.Contents());
    pops, goal, plan := [], None, None;
    iters := 0;
    ghost var exhausted := false;
    while |nodes| <= p.maxNodes && iters < p.maxIters
      invariant heap.Valid() && visited.Valid() && visited.slots.Length == Slots(p)
      invariant fresh(heap) && fresh(visited) && fresh(visited.slots)
      invariant iters == |pops| <= p.maxIters && Run(p, pops) && goal.None? && plan.None? && !exhausted
      invariant Held(nodes, heap.items, visited.Contents()) == After(p, pops)
      decreases p.maxIters - iters
    {
      ghost var items := heap.items;
      var found, e := heap.Pop();
      if !found {
        exhausted := true;
        break;
      }
      Popped(p, pops, nodes, items, visited.Contents(), e);
      iters := iters + 1;
      if p.d.AllMet(p.targets, nodes[e.idx].state) {
        goal := Some(e.idx);
        var actions := ExtractPlan(p.d, p.start, nodes, p.maxDepth, e.idx);
        PlanSound(p.d, p.start, p.targets, nodes, p.maxDepth, e.idx);
        plan := Some(Plan(actions, nodes[e.idx].g, iters));
        break;
      }
      nodes := TryActions(p, nodes, e.idx, heap, visited);
      Grown(p, pops, e, items, nodes, heap.items, visited.Contents());
      pops := pops + [e];
    }
    nodeCount := |nodes|;
    recorded := visited.count;
    assert |multiset(heap.items)| == |heap.items|;
    Ended(p, pops, goal, nodes, iters, recorded);
  }

  lemma SlotsAre<S>(p: Problem<S>)
    ensures Slots(p) == Visited.TableSize(p.maxNodes)
  {}

  lemma Started<S>(p: Problem<S>, items: seq<Heap.Entry>, keys: set<Visited.Key>)
    requires multiset(items) == multiset([]) + multiset{FirstEntry(p)} && keys == {} + {p.d.key(p.start)}
    ensures Held([Node(p.start, None, 0, 0, 0.0)], items, keys) == After(p, []) && Run(p, [])
  {}

  /** What a pop from the heap means for the machine. */
  lemma Popped<S(!new)>(p: Problem<S>, pops: seq<Heap.Entry>, nodes: seq<Node<S>>, items: seq<Heap.Entry>,
                        keys: set<Visited.Key>, e: Heap.Entry)
    requires p.maxNodes > 0 && Run(p, pops) && Held(nodes, items, keys) == After(p, pops)
    requires |nodes| <= p.maxNodes && |pops| < p.maxIters && e in items && forall x :: x in items ==> e.f <= x.f
    ensures NodesOk(p.d, p.start, nodes, p.maxDepth) && e.idx < |nodes| && CanPop(p, After(p, pops), e, |pops|)
    ensures Met(p, After(p, pops), e.idx) <==> p.d.AllMet(p.targets, nodes[e.idx].state)
    ensures Met(p, After(p, pops), e.idx) ==> Outcome(p, pops, Some(e.idx))
  {
    hide NodesOk, Run, After, Backed, Reached, Uncut, Expanded;
    RunKeeps(p, pops);
    assert forall x :: x in items <==> x in multiset(items);
  }

  /** What the expansion of a popped entry means for it. */
  lemma Grown<S(!new)>(p: Problem<S>, pops: seq<Heap.Entry>, e: Heap.Entry, items: seq<Heap.Entry>, nodes: seq<Node<S>>,
                       items': seq<Heap.Entry>, keys: set<Visited.Key>)
    requires Run(p, pops) && CanPop(p, After(p, pops), e, |pops|) && !Met(p, After(p, pops), e.idx)
    requires multiset(items) == After(p, pops).open
    requires Held(nodes, items', keys)
          == TryUpTo(p, After(p, pops).(open := multiset(items) - multiset{e}), e.idx, p.d.actions)
    ensures Run(p, pops + [e]) && Held(nodes, items', keys) == After(p, pops + [e])
  {
    hide Run, After, Met, TryUpTo;
    RunSnoc(p, pops, e);
  }

  /** The claims about the result, from how the run ended. */
  lemma Ended<S(!new)>(p: Problem<S>, pops: seq<Heap.Entry>, goal: Option<nat>, nodes: seq<Node<S>>, iters: nat,
                       recorded: nat)
    requires p.maxNodes > 0 && Run(p, pops) && After(p, pops).nodes == nodes && recorded == |After(p, pops).keys|
    requires goal.Some? ==> Outcome(p, pops, goal) && iters == |pops| + 1
    requires goal.None? ==> iters == |pops|
    requires goal.None? ==> After(p, pops).open == multiset{} || |nodes| > p.maxNodes || iters >= p.maxIters
    ensures Outcome(p, pops, goal) && |nodes| <= p.maxNodes + p.d.actions && iters <= |nodes|
    ensures KeysIdentify(p.d) && (exists states :: Roomy(p, states)) ==> (goal.Some? <==> Solvable(p))
    ensures (goal.None? && KeysIdentify(p.d) && |nodes| <= p.maxNodes && iters < p.maxIters
             && recorded < Slots(p) && !TooDeep(p.d, p.start, p.maxDepth)) ==> !Solvable(p)
  {
    hide NodesOk, Run, After, Sound, Expanded, Roomy, Solvable, TooDeep, KeysIdentify, Slots;
    RunKeeps(p, pops);
    if goal.Some? {
      var e :| CanPop(p, After(p, pops), e, |pops|) && e.idx == goal.value;
      assert e in After(p, pops).open;
    }
    hide CanPop;
    if KeysIdentify(p.d) { FindPlanRight(p, pops, goal); }
  }

  lemma RunSnoc<S(!new)>(p: Problem<S>, pops: seq<Heap.Entry>, e: Heap.Entry)
    requires Run(p, pops) && CanPop(p, After(p, pops), e, |pops|) && !Met(p, After(p, pops), e.idx)
    ensures Run(p, pops + [e]) && After(p, pops + [e]) == Expand(p, After(p, pops), e)
  {
    hide CanPop, Met, Expand;
    var next := pops + [e];
    assert next[..|next| - 1] == pops;
  }

  lemma FindPlanRight<S(!new)>(p: Problem<S>, pops: seq<Heap.Entry>, goal: Option<nat>)
    requires Outcome(p, pops, goal) && KeysIdentify(p.d) && p.maxNodes > 0
    ensures (exists states :: Roomy(p, states)) ==> (goal.Some? <==> Solvable(p))
    ensures goal.None? && After(p, pops).open == multiset{} && Uncut(p, After(p, pops)) ==> !Solvable(p)
  {
    if states :| Roomy(p, states) {
      FoundIff(p, pops, goal, states);
    }
    if goal.None? && After(p, pops).open == multiset{} && Uncut(p, After(p, pops)) {
      NothingSolves(p, pops);
    }
  }
}
