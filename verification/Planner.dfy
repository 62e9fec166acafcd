/** The GOAP search: best-first over states with a frontier heap, a visited set, parent links
    and three budgets. Authored preconditions, effects, goals and costs are total functions of
    the state; costs are reals. */
module Planner {
  import opened Bytes
  import Visited

  /** The callbacks of a planning problem. A failing `apply` or `cost` is None; a failing `pre`
      or `met` is false. */
  datatype Domain<!S> = Domain(actions: nat,
                               pre: (nat, S) -> bool,
                               apply: (nat, S) -> Option<S>,
                               met: (nat, S) -> bool,
                               cost: (nat, S) -> Option<real>,
                               key: S -> Visited.Key)
  {
    /** action_cost_for: no cost, a failing one or a negative one counts as 1. */
    function CostOf(a: nat, s: S): (c: real)
      ensures c >= 0.0
    {
      match cost(a, s)
      case Some(c) => if c < 0.0 then 1.0 else c
      case None => 1.0
    }

    /** goals_met */
    predicate AllMet(targets: seq<nat>, s: S)
    {
      forall i :: 0 <= i < |targets| ==> met(targets[i], s)
    }
  }

  // ----- What a plan means ------------------------------------------------------------------

  /** Applying a plan from `s`, each action's precondition checked where it is applied. */
  function Replay<S>(d: Domain<S>, s: S, plan: seq<nat>): (r: Option<S>)
    decreases |plan|
  {
    if plan == [] then Some(s)
    else if plan[0] >= d.actions || !d.pre(plan[0], s) then None
    else
      match d.apply(plan[0], s)
      case None => None
      case Some(t) => Replay(d, t, plan[1..])
  }

  /** The sum of the step costs along a replay. */
  function TotalCost<S>(d: Domain<S>, s: S, plan: seq<nat>): real
    decreases |plan|
  {
    if plan == [] then 0.0
    else d.CostOf(plan[0], s) + (match d.apply(plan[0], s)
                                 case None => 0.0
                                 case Some(t) => TotalCost(d, t, plan[1..]))
  }

  lemma {:induction false} ReplaySnoc<S>(d: Domain<S>, s: S, plan: seq<nat>, a: nat)
    requires Replay(d, s, plan).Some?
    ensures var t := Replay(d, s, plan).value;
            && Replay(d, s, plan + [a]) == (if a < d.actions && d.pre(a, t) then d.apply(a, t) else None)
            && (Replay(d, s, plan + [a]).Some? ==>
                  TotalCost(d, s, plan + [a]) == TotalCost(d, s, plan) + d.CostOf(a, t))
    decreases |plan|
  {
    if plan == [] {
      assert plan + [a] == [a];
    } else {
      assert (plan + [a])[1..] == plan[1..] + [a];
      ReplaySnoc(d, d.apply(plan[0], s).value, plan[1..], a);
    }
  }

  /** Each step adds its authored cost where it is applied, or 1 if there is no cost or a negative
      one. */
  lemma StepCost<S>(d: Domain<S>, s: S, plan: seq<nat>, i: nat)
    requires i < |plan| && Replay(d, s, plan).Some?
    ensures TotalCost(d, s, []) == 0.0 && Replay(d, s, plan[..i]).Some?
    ensures var c := d.cost(plan[i], Replay(d, s, plan[..i]).value);
            TotalCost(d, s, plan[..i + 1]) == TotalCost(d, s, plan[..i])
                                              + if c.Some? && c.value >= 0.0 then c.value else 1.0
  {
    ReplayUpTo(d, s, plan, i);
    ReplayUpTo(d, s, plan, i + 1);
    assert plan[..i + 1] == plan[..i] + [plan[i]];
    ReplaySnoc(d, s, plan[..i], plan[i]);
  }

  lemma {:induction false} ReplayUpTo<S>(d: Domain<S>, s: S, plan: seq<nat>, i: nat)
    requires i <= |plan| && Replay(d, s, plan).Some?
    ensures Replay(d, s, plan[..i]).Some?
    decreases i
  {
    if i > 0 {
      assert plan[..i][1..] == plan[1..][..i - 1];
      ReplayUpTo(d, d.apply(plan[0], s).value, plan[1..], i - 1);
    }
  }

  /** Without usable costs a plan costs its length. */
  lemma {:induction false} UnpricedCost<S(!new)>(d: Domain<S>, s: S, plan: seq<nat>)
    requires Replay(d, s, plan).Some?
    requires forall a, t :: d.cost(a, t).None? || d.cost(a, t).value < 0.0
    ensures TotalCost(d, s, plan) == |plan| as real
    decreases |plan|
  {
    if plan != [] {
      UnpricedCost(d, d.apply(plan[0], s).value, plan[1..]);
    }
  }

  // ----- The node list ------------------------------------------------------------------------

  datatype Node<S> = Node(state: S, parent: Option<nat>, action: nat, depth: nat, g: real)

  /** `n` was reached from its parent by an applicable action. */
  ghost predicate Linked<S(!new)>(d: Domain<S>, nodes: seq<Node<S>>, i: nat)
    requires i < |nodes|
  {
    && nodes[i].parent.Some? && nodes[i].parent.value < i
    && var p := nodes[nodes[i].parent.value];
    && nodes[i].action < d.actions && d.pre(nodes[i].action, p.state)
    && d.apply(nodes[i].action, p.state) == Some(nodes[i].state)
    && nodes[i].depth == p.depth + 1 && nodes[i].g == p.g + d.CostOf(nodes[i].action, p.state)
  }

  ghost predicate NodesOk<S(!new)>(d: Domain<S>, start: S, nodes: seq<Node<S>>, maxDepth: nat)
  {
    && nodes != [] && nodes[0] == Node(start, None, 0, 0, 0.0)
    && forall i :: 0 < i < |nodes| ==> Linked(d, nodes, i) && nodes[i].depth <= maxDepth
  }

  /** The actions on the way from the root to node `i`. */
  ghost function PathTo<S(!new)>(d: Domain<S>, start: S, nodes: seq<Node<S>>, maxDepth: nat, i: nat): seq<nat>
    requires NodesOk(d, start, nodes, maxDepth) && i < |nodes|
  {
    if i == 0 then [] else
      assert Linked(d, nodes, i);
      PathTo(d, start, nodes, maxDepth, nodes[i].parent.value) + [nodes[i].action]
  }

  lemma {:induction false} PathSound<S(!new)>(d: Domain<S>, start: S, nodes: seq<Node<S>>, maxDepth: nat, i: nat)
    requires NodesOk(d, start, nodes, maxDepth) && i < |nodes|
    ensures var path := PathTo(d, start, nodes, maxDepth, i);
            && Replay(d, start, path) == Some(nodes[i].state) && TotalCost(d, start, path) == nodes[i].g
            && |path| == nodes[i].depth && (i > 0 ==> |path| <= maxDepth)
  {
    if i > 0 {
      assert Linked(d, nodes, i);
      var p := nodes[i].parent.value;
      PathSound(d, start, nodes, maxDepth, p);
      ReplaySnoc(d, start, PathTo(d, start, nodes, maxDepth, p), nodes[i].action);
    }
  }

  /** The two parent walks and the reversal. Indices decrease along parents, so both end. */
  method ExtractPlan<S(!new)>(ghost d: Domain<S>, ghost start: S, nodes: seq<Node<S>>, ghost maxDepth: nat, goal: nat)
    returns (plan: seq<nat>)
    requires NodesOk(d, start, nodes, maxDepth) && goal < |nodes|
    ensures plan == PathTo(d, start, nodes, maxDepth, goal)
  {
    hide NodesOk, PathTo, Reversed;
    var rev: seq<nat> := [];
    var cur: nat := goal;
    WalkStart(d, start, nodes, maxDepth, goal);
    while nodes[cur].parent.Some?
      invariant 0 <= cur < |nodes|
      invariant PathTo(d, start, nodes, maxDepth, goal) == PathTo(d, start, nodes, maxDepth, cur) + Reversed(rev)
      decreases cur
    {
      WalkStep(d, start, nodes, maxDepth, cur, rev);
      rev := rev + [nodes[cur].action];
      cur := nodes[cur].parent.value;
    }
    WalkEnd(d, start, nodes, maxDepth, cur, rev);
    plan := Reverse(rev);
  }

  lemma WalkStart<S(!new)>(d: Domain<S>, start: S, nodes: seq<Node<S>>, maxDepth: nat, goal: nat)
    requires NodesOk(d, start, nodes, maxDepth) && goal < |nodes|
    ensures PathTo(d, start, nodes, maxDepth, goal) + Reversed([]) == PathTo(d, start, nodes, maxDepth, goal)
  {}

  /** One step towards the root moves the last action from the path to the collected ones. */
  lemma WalkStep<S(!new)>(d: Domain<S>, start: S, nodes: seq<Node<S>>, maxDepth: nat, cur: nat, rev: seq<nat>)
    requires NodesOk(d, start, nodes, maxDepth) && cur < |nodes| && nodes[cur].parent.Some?
    ensures nodes[cur].parent.value < cur
    ensures PathTo(d, start, nodes, maxDepth, cur) + Reversed(rev)
         == PathTo(d, start, nodes, maxDepth, nodes[cur].parent.value) + Reversed(rev + [nodes[cur].action])
  {
    assert Linked(d, nodes, cur);
    var a := nodes[cur].action;
    assert (rev + [a])[..|rev|] == rev;
    assert Reversed(rev + [a]) == [a] + Reversed(rev);
    hide Linked;
    Assoc(PathTo(d, start, nodes, maxDepth, nodes[cur].parent.value), [a], Reversed(rev));
  }

  lemma WalkEnd<S(!new)>(d: Domain<S>, start: S, nodes: seq<Node<S>>, maxDepth: nat, cur: nat, rev: seq<nat>)
    requires NodesOk(d, start, nodes, maxDepth) && cur < |nodes| && nodes[cur].parent.None?
    ensures PathTo(d, start, nodes, maxDepth, cur) + Reversed(rev) == Reversed(rev)
  {
    forall i | 0 < i < |nodes| ensures nodes[i].parent.Some? {
      assert Linked(d, nodes, i);
    }
    assert PathTo(d, start, nodes, maxDepth, cur) == [];
  }

  /** The copying loop, last collected action first. */
  method Reverse(rev: seq<nat>) returns (plan: seq<nat>)
    ensures plan == Reversed(rev)
  {
    plan := [];
    for i := 0 to |rev|
      invariant plan == Reversed(rev[|rev| - i..])
    {
      assert rev[|rev| - i - 1..] == [rev[|rev| - 1 - i]] + rev[|rev| - i..];
      ReversedCons(rev[|rev| - 1 - i], rev[|rev| - i..]);
      plan := plan + [rev[|rev| - 1 - i]];
    }
    assert rev[0..] == rev;
  }

  function Reversed(s: seq<nat>): (r: seq<nat>)
    ensures |r| == |s|
  {
    if s == [] then [] else [s[|s| - 1]] + Reversed(s[..|s| - 1])
  }

  lemma {:induction false} ReversedCons(x: nat, s: seq<nat>)
    ensures Reversed([x] + s) == Reversed(s) + [x]
  {
    if s != [] {
      var n := |s| - 1;
      assert ([x] + s)[..n + 1] == [x] + s[..n];
      ReversedCons(x, s[..n]);
    } else {
      assert ([x] + s)[..0] == [];
    }
  }

  // ----- Expanding one node -----------------------------------------------------------------------

  /** Every successor of node `n` by one of the first `acts` actions has a recorded key. */
  ghost predicate Covered<S(!new)>(d: Domain<S>, nodes: seq<Node<S>>, n: nat, acts: nat, keys: set<Visited.Key>)
    requires n < |nodes|
  {
    forall a: nat :: a < acts && d.pre(a, nodes[n].state) && d.apply(a, nodes[n].state).Some?
      ==> d.key(d.apply(a, nodes[n].state).value) in keys
  }

  /** Every recorded key belongs to a node. */
  ghost predicate Backed<S(!new)>(d: Domain<S>, nodes: seq<Node<S>>, keys: set<Visited.Key>)
  {
    forall k :: k in keys ==> exists j :: 0 <= j < |nodes| && d.key(nodes[j].state) == k
  }

  lemma NodesSnoc<S(!new)>(d: Domain<S>, start: S, nodes: seq<Node<S>>, maxDepth: nat, n: nat, a: nat, t: S)
    requires NodesOk(d, start, nodes, maxDepth) && n < |nodes| && nodes[n].depth + 1 <= maxDepth
    requires a < d.actions && d.pre(a, nodes[n].state) && d.apply(a, nodes[n].state) == Some(t)
    ensures NodesOk(d, start, nodes + [Node(t, Some(n), a, nodes[n].depth + 1,
                                            nodes[n].g + d.CostOf(a, nodes[n].state))], maxDepth)
  {
    var nodes' := nodes + [Node(t, Some(n), a, nodes[n].depth + 1, nodes[n].g + d.CostOf(a, nodes[n].state))];
    forall i | 0 < i < |nodes'| ensures Linked(d, nodes', i) && nodes'[i].depth <= maxDepth {
      if i < |nodes| {
        assert Linked(d, nodes, i);
      }
    }
  }

  lemma BackedSnoc<S(!new)>(d: Domain<S>, nodes: seq<Node<S>>, keys: set<Visited.Key>, x: Node<S>)
    requires Backed(d, nodes, keys)
    ensures Backed(d, nodes + [x], keys + {d.key(x.state)})
  {
    var nodes' := nodes + [x];
    forall k | k in keys + {d.key(x.state)} ensures exists j :: 0 <= j < |nodes'| && d.key(nodes'[j].state) == k {
      if k in keys {
        var j :| 0 <= j < |nodes| && d.key(nodes[j].state) == k;
        assert d.key(nodes'[j].state) == k;
      } else {
        assert d.key(nodes'[|nodes|].state) == k;
      }
    }
  }

  /** The heuristic: how many targets a state misses. */
  function Unsatisfied<S>(d: Domain<S>, targets: seq<nat>, s: S): nat
  {
    if targets == [] then 0
    else Unsatisfied(d, targets[..|targets| - 1], s) + if d.met(targets[|targets| - 1], s) then 0 else 1
  }

  /** Some plan runs past the depth limit. */
  ghost predicate TooDeep<S(!new)>(d: Domain<S>, start: S, maxDepth: nat)
  {
    exists path :: |path| == maxDepth + 1 && Replay(d, start, path).Some?
  }

  lemma FoundTooDeep<S(!new)>(d: Domain<S>, start: S, nodes: seq<Node<S>>, maxDepth: nat, n: nat, a: nat)
    requires NodesOk(d, start, nodes, maxDepth) && n < |nodes| && nodes[n].depth + 1 > maxDepth
    requires a < d.actions && d.pre(a, nodes[n].state) && d.apply(a, nodes[n].state).Some?
    ensures TooDeep(d, start, maxDepth)
  {
    PathSound(d, start, nodes, maxDepth, n);
    var path := PathTo(d, start, nodes, maxDepth, n);
    ReplaySnoc(d, start, path, a);
    assert n > 0 ==> nodes[n].depth <= maxDepth;
    assert |path + [a]| == maxDepth + 1;
  }

  // ----- What a search is for ---------------------------------------------------------------------

  /** Equal keys mean equal states. */
  ghost predicate KeysIdentify<S(!new)>(d: Domain<S>)
  {
    forall s, t :: d.key(s) == d.key(t) ==> s == t
  }

  ghost predicate Solves<S(!new)>(d: Domain<S>, start: S, targets: seq<nat>, plan: seq<nat>)
  {
    var r := Replay(d, start, plan);
    r.Some? && d.AllMet(targets, r.value)
  }

  lemma {:induction false} ReplayPrefix<S(!new)>(d: Domain<S>, s: S, plan: seq<nat>, a: nat)
    requires Replay(d, s, plan + [a]).Some?
    ensures Replay(d, s, plan).Some?
    decreases |plan|
  {
    if plan != [] {
      assert (plan + [a])[1..] == plan[1..] + [a];
      ReplayPrefix(d, d.apply(plan[0], s).value, plan[1..], a);
    }
  }

  lemma PlanSound<S(!new)>(d: Domain<S>, start: S, targets: seq<nat>, nodes: seq<Node<S>>, maxDepth: nat, n: nat)
    requires NodesOk(d, start, nodes, maxDepth) && n < |nodes| && d.AllMet(targets, nodes[n].state)
    ensures var path := PathTo(d, start, nodes, maxDepth, n);
            Solves(d, start, targets, path) && TotalCost(d, start, path) == nodes[n].g && |path| <= maxDepth
  {
    PathSound(d, start, nodes, maxDepth, n);
  }
}
