/** The search as a machine over plain values: which nodes, open entries and visited keys each
    popped entry leads to. The order among equally good open entries is left open, so every
    claim here holds for any heap. */
module Frontier {
  import opened Bytes
  import opened Sums
  import opened Planner
  import Heap
  import Visited

  datatype Problem<!S> =
    Problem(d: Domain<S>, start: S, targets: seq<nat>, maxNodes: U32, maxIters: U32, maxDepth: U32)

  datatype Frontier<S> = Frontier(nodes: seq<Node<S>>, open: multiset<Heap.Entry>, keys: set<Visited.Key>)

  /** visited_init: the table never grows. */
  function Slots<S>(p: Problem<S>): nat { Visited.TableSize(p.maxNodes) }

  function FirstEntry<S>(p: Problem<S>): Heap.Entry { Heap.Entry(Unsatisfied(p.d, p.targets, p.start) as real, 0) }

  ghost function Begin<S>(p: Problem<S>): Frontier<S>
  {
    Frontier([Node(p.start, None, 0, 0, 0.0)], multiset{FirstEntry(p)}, {p.d.key(p.start)})
  }

  /** One action tried on node `n`. A state is closed when it is generated, even when the depth
      limit then drops it. */
  ghost function Try<S>(p: Problem<S>, f: Frontier<S>, n: nat, a: nat): (r: Frontier<S>)
    requires n < |f.nodes|
    ensures f.nodes <= r.nodes
  {
    var x := f.nodes[n];
    if !p.d.pre(a, x.state) || p.d.apply(a, x.state).None? then f else
      var t := p.d.apply(a, x.state).value;
      if p.d.key(t) in f.keys || |f.keys| >= Slots(p) then f
      else if x.depth + 1 > p.maxDepth then f.(keys := f.keys + {p.d.key(t)})
      else
        var y := Node(t, Some(n), a, x.depth + 1, x.g + p.d.CostOf(a, x.state));
        Frontier(f.nodes + [y],
                 f.open + multiset{Heap.Entry(y.g + Unsatisfied(p.d, p.targets, t) as real, |f.nodes|)},
                 f.keys + {p.d.key(t)})
  }

  ghost function TryUpTo<S>(p: Problem<S>, f: Frontier<S>, n: nat, acts: nat): (r: Frontier<S>)
    requires n < |f.nodes|
    ensures f.nodes <= r.nodes
  {
    if acts == 0 then f else Try(p, TryUpTo(p, f, n, acts - 1), n, acts - 1)
  }

  /** A popped entry that is no goal is expanded. */
  ghost function Expand<S>(p: Problem<S>, f: Frontier<S>, e: Heap.Entry): Frontier<S>
  {
    if e.idx < |f.nodes| then TryUpTo(p, f.(open := f.open - multiset{e}), e.idx, p.d.actions) else f
  }

  ghost function After<S>(p: Problem<S>, pops: seq<Heap.Entry>): Frontier<S>
  {
    if pops == [] then Begin(p) else Expand(p, After(p, pops[..|pops| - 1]), pops[|pops| - 1])
  }

  /** Within both budgets, `e` is a least open entry. */
  ghost predicate CanPop<S>(p: Problem<S>, f: Frontier<S>, e: Heap.Entry, iters: nat)
  {
    && |f.nodes| <= p.maxNodes && iters < p.maxIters
    && e in f.open && e.idx < |f.nodes| && forall x :: x in f.open ==> e.f <= x.f
  }

  ghost predicate Met<S>(p: Problem<S>, f: Frontier<S>, n: nat)
  {
    n < |f.nodes| && p.d.AllMet(p.targets, f.nodes[n].state)
  }

  /** `pops` were popped and expanded one after the other, none of them a goal. */
  ghost predicate Run<S>(p: Problem<S>, pops: seq<Heap.Entry>)
  {
    pops == [] ||
    (var init, e := pops[..|pops| - 1], pops[|pops| - 1];
     Run(p, init) && CanPop(p, After(p, init), e, |init|) && !Met(p, After(p, init), e.idx))
  }

  /** How a run ends: a goal is popped, or nothing is open, or a budget is used up. */
  ghost predicate Outcome<S>(p: Problem<S>, pops: seq<Heap.Entry>, goal: Option<nat>)
  {
    && Run(p, pops)
    && var f := After(p, pops);
       match goal
       case Some(n) => Met(p, f, n) && exists e :: CanPop(p, f, e, |pops|) && e.idx == n
       case None => f.open == multiset{} || |f.nodes| > p.maxNodes || |pops| >= p.maxIters
  }

  // ----- What every step keeps ---------------------------------------------------------------------

  /** Some plan leads to a state of this key. */
  ghost predicate Reached<S(!new)>(p: Problem<S>, k: Visited.Key)
  {
    exists path :: Replay(p.d, p.start, path).Some? && p.d.key(Replay(p.d, p.start, path).value) == k
  }

  /** So far nothing can have been dropped for depth or for want of a slot. */
  ghost predicate Uncut<S(!new)>(p: Problem<S>, f: Frontier<S>)
  {
    |f.keys| < Slots(p) && (TooDeep(p.d, p.start, p.maxDepth) ==> |f.keys| <= p.maxDepth + 1)
  }

  ghost predicate Sound<S(!new)>(p: Problem<S>, f: Frontier<S>)
  {
    && NodesOk(p.d, p.start, f.nodes, p.maxDepth)
    && (forall e :: e in f.open ==> e.idx < |f.nodes|)
    && |f.nodes| <= |f.keys|
    && (forall k :: k in f.keys ==> Reached(p, k))
    && (Uncut(p, f) ==> Backed(p.d, f.nodes, f.keys))
  }

  lemma {:induction false} DepthBelowIndex<S(!new)>(d: Domain<S>, start: S, nodes: seq<Node<S>>, maxDepth: nat, i: nat)
    requires NodesOk(d, start, nodes, maxDepth) && i < |nodes|
    ensures nodes[i].depth <= i
  {
    if i > 0 {
      assert Linked(d, nodes, i);
      DepthBelowIndex(d, start, nodes, maxDepth, nodes[i].parent.value);
    }
  }

  lemma SuccessorReached<S(!new)>(p: Problem<S>, f: Frontier<S>, n: nat, a: nat)
    requires NodesOk(p.d, p.start, f.nodes, p.maxDepth) && n < |f.nodes| && a < p.d.actions
    requires p.d.pre(a, f.nodes[n].state) && p.d.apply(a, f.nodes[n].state).Some?
    ensures Reached(p, p.d.key(p.d.apply(a, f.nodes[n].state).value))
  {
    PathSound(p.d, p.start, f.nodes, p.maxDepth, n);
    var path := PathTo(p.d, p.start, f.nodes, p.maxDepth, n);
    ReplaySnoc(p.d, p.start, path, a);
    assert Replay(p.d, p.start, path + [a]).Some?;
  }

  /** One action keeps all of that; an open entry is added exactly with a node, a node only with
      a key, and unless something was cut the successor's key is recorded. */
  lemma TryKeeps<S(!new)>(p: Problem<S>, f: Frontier<S>, n: nat, a: nat)
    requires Sound(p, f) && n < |f.nodes| && a < p.d.actions
    ensures var r := Try(p, f, n, a);
            && Sound(p, r) && f.keys <= r.keys && f.open <= r.open
            && |f.nodes| <= |r.nodes| <= |f.nodes| + 1 && |r.open| - |f.open| == |r.nodes| - |f.nodes|
            && (|r.nodes| > |f.nodes| ==> exists e :: e in r.open && e.idx == |f.nodes|)
            && (Uncut(p, r) && p.d.pre(a, f.nodes[n].state) && p.d.apply(a, f.nodes[n].state).Some? ==>
                  p.d.key(p.d.apply(a, f.nodes[n].state).value) in r.keys)
  {
    hide NodesOk, Backed, TooDeep, Reached;
    var r, x := Try(p, f, n, a), f.nodes[n];
    if p.d.pre(a, x.state) && p.d.apply(a, x.state).Some? {
      var t := p.d.apply(a, x.state).value;
      SuccessorReached(p, f, n, a);
      if p.d.key(t) !in f.keys && |f.keys| < Slots(p) {
        if x.depth + 1 > p.maxDepth {
          FoundTooDeep(p.d, p.start, f.nodes, p.maxDepth, n, a);
          DepthBelowIndex(p.d, p.start, f.nodes, p.maxDepth, n);
        } else {
          NodesSnoc(p.d, p.start, f.nodes, p.maxDepth, n, a, t);
          if Uncut(p, r) { BackedSnoc(p.d, f.nodes, f.keys, r.nodes[|f.nodes|]); }
          assert Heap.Entry(r.nodes[|f.nodes|].g + Unsatisfied(p.d, p.targets, t) as real, |f.nodes|) in r.open;
        }
      }
    }
  }

  ghost function Indices(open: multiset<Heap.Entry>): set<nat>
  {
    set e | e in open :: e.idx
  }

  lemma {:induction false} TryUpToKeeps<S(!new)>(p: Problem<S>, f: Frontier<S>, n: nat, acts: nat)
    requires Sound(p, f) && n < |f.nodes| && acts <= p.d.actions
    ensures var r := TryUpTo(p, f, n, acts);
            && Sound(p, r) && f.keys <= r.keys && f.open <= r.open
            && |r.nodes| <= |f.nodes| + acts && |r.open| - |f.open| == |r.nodes| - |f.nodes|
            && (forall i :: |f.nodes| <= i < |r.nodes| ==> i in Indices(r.open))
            && (Uncut(p, r) ==> Covered(p.d, f.nodes, n, acts, r.keys))
  {
    hide Sound, Uncut, Try;
    if acts > 0 {
      TryUpToKeeps(p, f, n, acts - 1);
      var q := TryUpTo(p, f, n, acts - 1);
      TryKeeps(p, q, n, acts - 1);
      UncutBefore(p, q, Try(p, q, n, acts - 1));
      OpenGrows(q.open, Try(p, q, n, acts - 1).open);
    }
  }

  lemma OpenGrows(a: multiset<Heap.Entry>, b: multiset<Heap.Entry>)
    requires a <= b
    ensures Indices(a) <= Indices(b)
  {}

  lemma UncutBefore<S(!new)>(p: Problem<S>, f: Frontier<S>, r: Frontier<S>)
    requires f.keys <= r.keys
    ensures Uncut(p, r) ==> Uncut(p, f)
  {
    SubsetSize(f.keys, r.keys);
  }

  // ----- Best first ------------------------------------------------------------------------------------

  /** The targets a state misses. */
  ghost function Missed<S>(p: Problem<S>, s: S): set<nat>
  {
    set i: nat | i < |p.targets| && !p.d.met(p.targets[i], s)
  }

  lemma {:induction false} UnsatisfiedCounts<S>(d: Domain<S>, targets: seq<nat>, s: S)
    ensures Unsatisfied(d, targets, s) == |set i: nat | i < |targets| && !d.met(targets[i], s)|
  {
    var now := set i: nat | i < |targets| && !d.met(targets[i], s);
    if targets == [] {
      assert now == {};
    } else {
      var n := |targets| - 1;
      UnsatisfiedCounts(d, targets[..n], s);
      var was := set i: nat | i < n && !d.met(targets[..n][i], s);
      assert now == was + if d.met(targets[n], s) then {} else {n};
      assert n !in was;
    }
  }

  /** Open entries are valued by what their node has cost and how many targets it misses. */
  ghost predicate Valued<S>(p: Problem<S>, f: Frontier<S>)
  {
    forall e :: e in f.open ==>
      e.idx < |f.nodes| && e.f == f.nodes[e.idx].g + |Missed(p, f.nodes[e.idx].state)| as real
  }

  lemma TryValued<S>(p: Problem<S>, f: Frontier<S>, n: nat, a: nat)
    requires Valued(p, f) && n < |f.nodes|
    ensures Valued(p, Try(p, f, n, a))
  {
    hide Unsatisfied, Missed;
    if p.d.apply(a, f.nodes[n].state).Some? {
      MissedCount(p, p.d.apply(a, f.nodes[n].state).value);
    }
  }

  lemma MissedCount<S>(p: Problem<S>, s: S)
    ensures Unsatisfied(p.d, p.targets, s) == |Missed(p, s)|
  {
    UnsatisfiedCounts(p.d, p.targets, s);
  }

  lemma {:induction false} TryUpToValued<S>(p: Problem<S>, f: Frontier<S>, n: nat, acts: nat)
    requires Valued(p, f) && n < |f.nodes|
    ensures Valued(p, TryUpTo(p, f, n, acts))
  {
    hide Valued, Try;
    if acts > 0 {
      TryUpToValued(p, f, n, acts - 1);
      TryValued(p, TryUpTo(p, f, n, acts - 1), n, acts - 1);
    }
  }

  lemma {:induction false} AlwaysValued<S>(p: Problem<S>, pops: seq<Heap.Entry>)
    ensures Valued(p, After(p, pops))
  {
    hide Unsatisfied, Missed, TryUpTo;
    if pops == [] {
      MissedCount(p, p.start);
    } else {
      var f, e := After(p, pops[..|pops| - 1]), pops[|pops| - 1];
      AlwaysValued(p, pops[..|pops| - 1]);
      if e.idx < |f.nodes| {
        TryUpToValued(p, f.(open := f.open - multiset{e}), e.idx, p.d.actions);
      }
    }
  }

  /** Every popped entry is best: no open node has a lower sum of its cost and the number of targets
      it misses. So a goal is found at a cost no open node promises to undercut. */
  lemma BestFirst<S>(p: Problem<S>, pops: seq<Heap.Entry>, e: Heap.Entry)
    requires CanPop(p, After(p, pops), e, |pops|)
    ensures var f := After(p, pops);
            && (forall x :: x in f.open ==> x.idx < |f.nodes|)
            && (forall x :: x in f.open ==>
                  f.nodes[e.idx].g + |Missed(p, f.nodes[e.idx].state)| as real
                  <= f.nodes[x.idx].g + |Missed(p, f.nodes[x.idx].state)| as real)
            && (Met(p, f, e.idx) ==> forall x :: x in f.open ==>
                  f.nodes[e.idx].g <= f.nodes[x.idx].g + |Missed(p, f.nodes[x.idx].state)| as real)
  {
    hide After, Missed;
    AlwaysValued(p, pops);
  }

  // ----- Whole runs ----------------------------------------------------------------------------------

  ghost function Done(pops: seq<Heap.Entry>): set<nat>
  {
    set e | e in pops :: e.idx
  }

  /** Expanded nodes miss a target and, unless something was cut, have all successors recorded. */
  ghost predicate Expanded<S(!new)>(p: Problem<S>, f: Frontier<S>, done: set<nat>)
  {
    && (forall i :: i in done ==> i < |f.nodes| && !p.d.AllMet(p.targets, f.nodes[i].state))
    && (Uncut(p, f) ==> forall i :: i in done ==> i < |f.nodes| && Covered(p.d, f.nodes, i, p.d.actions, f.keys))
  }

  lemma ExpandedGrows<S(!new)>(p: Problem<S>, f: Frontier<S>, r: Frontier<S>, done: set<nat>, n: nat)
    requires Expanded(p, f, done) && f.nodes <= r.nodes && f.keys <= r.keys && n < |f.nodes| && !Met(p, f, n)
    requires Uncut(p, r) ==> Covered(p.d, f.nodes, n, p.d.actions, r.keys)
    ensures Expanded(p, r, done + {n})
  {
    hide Uncut;
    UncutBefore(p, f, r);
    forall i | i in done + {n}
      ensures i < |r.nodes| && !p.d.AllMet(p.targets, r.nodes[i].state)
      ensures Uncut(p, r) ==> Covered(p.d, r.nodes, i, p.d.actions, r.keys)
    {
      assert r.nodes[i].state == f.nodes[i].state;
      if i in done && Uncut(p, r) {
        assert Covered(p.d, f.nodes, i, p.d.actions, f.keys);
      }
    }
  }

  /** Over every run: the nodes stay linked and reachable, every node is expanded or open, each
      pop took one open entry, and the node budget is passed by less than one expansion. */
  lemma {:induction false} RunKeeps<S(!new)>(p: Problem<S>, pops: seq<Heap.Entry>)
    requires Run(p, pops) && p.maxNodes > 0
    ensures var f := After(p, pops);
            && Sound(p, f) && Expanded(p, f, Done(pops))
            && |f.open| + |pops| == |f.nodes| <= p.maxNodes + p.d.actions
            && (forall i: nat :: i < |f.nodes| ==> i in Done(pops) || i in Indices(f.open))
    decreases |pops|
  {
    hide Sound, Expanded, Expand;
    if pops == [] {
      assert Done(pops) == {};
      BeginKeeps(p);
    } else {
      var init, e := pops[..|pops| - 1], pops[|pops| - 1];
      RunKeeps(p, init);
      DoneSnoc(pops);
      hide Done, Indices;
      PopKeeps(p, After(p, init), e, Done(init));
    }
  }

  lemma DoneSnoc(pops: seq<Heap.Entry>)
    requires pops != []
    ensures Done(pops) == Done(pops[..|pops| - 1]) + {pops[|pops| - 1].idx}
  {
    assert pops == pops[..|pops| - 1] + [pops[|pops| - 1]];
  }

  lemma BeginKeeps<S(!new)>(p: Problem<S>)
    ensures Sound(p, Begin(p)) && Expanded(p, Begin(p), {}) && 0 in Indices(Begin(p).open)
  {
    var f, e := Begin(p), FirstEntry(p);
    assert e in f.open;
    assert Replay(p.d, p.start, []) == Some(p.start);
    assert p.d.key(f.nodes[0].state) == p.d.key(p.start);
  }

  lemma PopKeeps<S(!new)>(p: Problem<S>, f: Frontier<S>, e: Heap.Entry, done: set<nat>)
    requires Sound(p, f) && Expanded(p, f, done) && e in f.open && e.idx < |f.nodes| && !Met(p, f, e.idx)
    requires forall i: nat :: i < |f.nodes| ==> i in done || i in Indices(f.open)
    ensures var r := Expand(p, f, e);
            && Sound(p, r) && Expanded(p, r, done + {e.idx})
            && |f.nodes| <= |r.nodes| <= |f.nodes| + p.d.actions && |r.open| + 1 - |f.open| == |r.nodes| - |f.nodes|
            && (forall i: nat :: i < |r.nodes| ==> i in done + {e.idx} || i in Indices(r.open))
  {
    var f1 := f.(open := f.open - multiset{e});
    assert Sound(p, f1) && Expanded(p, f1, done) by { hide NodesOk, Backed, TooDeep, Reached; }
    assert forall i :: i in Indices(f.open) ==> i == e.idx || i in Indices(f1.open) by {
      forall i | i in Indices(f.open) && i != e.idx ensures i in Indices(f1.open) {
        var x :| x in f.open && x.idx == i;
        assert x in f1.open;
      }
    }
    hide Sound, Uncut, TryUpTo;
    TryUpToKeeps(p, f1, e.idx, p.d.actions);
    var r := Expand(p, f, e);
    OpenGrows(f1.open, r.open);
    ExpandedGrows(p, f1, r, done, e.idx);
  }

  // ----- When the answer is right ------------------------------------------------------------------

  /** Once every node is expanded and nothing was cut, every reachable state is a node. */
  lemma {:induction false} ReachableIsNode<S(!new)>(p: Problem<S>, f: Frontier<S>, done: set<nat>, path: seq<nat>)
    requires Sound(p, f) && Expanded(p, f, done) && Uncut(p, f) && KeysIdentify(p.d)
    requires forall i: nat :: i < |f.nodes| ==> i in done
    requires Replay(p.d, p.start, path).Some?
    ensures exists j :: 0 <= j < |f.nodes| && f.nodes[j].state == Replay(p.d, p.start, path).value
    decreases |path|
  {
    hide Uncut, Reached;
    if path == [] {
      assert f.nodes[0].state == p.start;
    } else {
      var n := |path| - 1;
      var init, a := path[..n], path[n];
      assert path == init + [a];
      ReplayPrefix(p.d, p.start, init, a);
      ReplaySnoc(p.d, p.start, init, a);
      ReachableIsNode(p, f, done, init);
      var j :| 0 <= j < |f.nodes| && f.nodes[j].state == Replay(p.d, p.start, init).value;
      assert j in done && Covered(p.d, f.nodes, j, p.d.actions, f.keys);
      var t := Replay(p.d, p.start, path).value;
      assert p.d.key(t) in f.keys;
      var i :| 0 <= i < |f.nodes| && p.d.key(f.nodes[i].state) == p.d.key(t);
    }
  }

  /** An exhausted search that cut nothing proves that no plan of any length exists. */
  lemma NothingSolves<S(!new)>(p: Problem<S>, pops: seq<Heap.Entry>)
    requires Run(p, pops) && p.maxNodes > 0 && KeysIdentify(p.d)
    requires After(p, pops).open == multiset{} && Uncut(p, After(p, pops))
    ensures forall path :: !Solves(p.d, p.start, p.targets, path)
  {
    hide Sound, Uncut, Run, After;
    RunKeeps(p, pops);
    var f := After(p, pops);
    assert Indices(f.open) == {};
    forall path ensures !Solves(p.d, p.start, p.targets, path) {
      if Replay(p.d, p.start, path).Some? {
        ReachableIsNode(p, f, Done(pops), path);
      }
    }
  }

  /** `states` holds every state some plan leads to. */
  ghost predicate Space<S(!new)>(p: Problem<S>, states: set<S>)
  {
    forall path :: Replay(p.d, p.start, path).Some? ==> Replay(p.d, p.start, path).value in states
  }

  /** The budgets cover the reachable states; a depth limit that some plan can pass also does. */
  ghost predicate Roomy<S(!new)>(p: Problem<S>, states: set<S>)
  {
    && Space(p, states) && |states| <= p.maxNodes && |states| < p.maxIters && |states| < Slots(p)
    && (TooDeep(p.d, p.start, p.maxDepth) ==> |states| <= p.maxDepth + 1)
  }

  lemma {:induction false} ImageSize<S(!new)>(states: set<S>, key: S -> Visited.Key)
    ensures |set x | x in states :: key(x)| <= |states|
    decreases states
  {
    var image := set x | x in states :: key(x);
    if states == {} {
      assert image == {};
    } else {
      var y :| y in states;
      ImageSize(states - {y}, key);
      assert image == (set x | x in states - {y} :: key(x)) + {key(y)};
    }
  }

  lemma KeysWithin<S(!new)>(p: Problem<S>, f: Frontier<S>, states: set<S>)
    requires Sound(p, f) && Space(p, states)
    ensures |f.nodes| <= |f.keys| <= |states|
  {
    hide NodesOk, Uncut, Backed;
    var image := set x | x in states :: p.d.key(x);
    forall k | k in f.keys ensures k in image {
      assert Reached(p, k);
    }
    SubsetSize(f.keys, image);
    ImageSize(states, p.d.key);
  }

  /** From half of the 32-bit range on the table size wraps; a table of one slot, which
      max_nodes = 2^31 gives, holds the start state and nothing is ever generated. */
  lemma {:induction false} OneSlotStays<S>(p: Problem<S>, pops: seq<Heap.Entry>)
    requires Slots(p) == 1
    ensures After(p, pops).nodes == Begin(p).nodes && |After(p, pops).keys| == 1
    decreases |pops|
  {
    hide Try, Slots;
    if pops != [] {
      var init, e := pops[..|pops| - 1], pops[|pops| - 1];
      OneSlotStays(p, init);
      var f := After(p, init);
      if e.idx < |f.nodes| { FullTable(p, f.(open := f.open - multiset{e}), e.idx, p.d.actions); }
    }
  }

  lemma {:induction false} FullTable<S>(p: Problem<S>, f: Frontier<S>, n: nat, acts: nat)
    requires n < |f.nodes| && |f.keys| >= Slots(p)
    ensures TryUpTo(p, f, n, acts) == f
  {
    if acts > 0 { FullTable(p, f, n, acts - 1); }
  }

  /** Below 2^31 nodes the table is larger than the node budget. */
  lemma TableSuffices<S>(p: Problem<S>)
    requires p.maxNodes < 0x8000_0000
    ensures Slots(p) > p.maxNodes
  {}

  /** With budgets that cover the reachable states, a plan is found if and only if one exists. */
  lemma FoundIff<S(!new)>(p: Problem<S>, pops: seq<Heap.Entry>, goal: Option<nat>, states: set<S>)
    requires Outcome(p, pops, goal) && Roomy(p, states) && KeysIdentify(p.d)
    ensures goal.Some? <==> exists path :: Solves(p.d, p.start, p.targets, path)
  {
    hide After, Run, TotalCost;
    assert p.start in states by { assert Replay(p.d, p.start, []) == Some(p.start); }
    assert states != {} && |states| > 0;
    var f := After(p, pops);
    RunKeeps(p, pops);
    KeysWithin(p, f, states);
    if goal.Some? {
      PlanSound(p.d, p.start, p.targets, f.nodes, p.maxDepth, goal.value);
    } else {
      NothingSolves(p, pops);
    }
  }
}
