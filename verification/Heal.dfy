/** Healing a swarm by full syncs between all its nodes, in any order: afterwards every node holds
    the join of what all of them held. */
module Heal {
  import opened Bytes
  import opened Hashing
  import opened Sums
  import opened Lww
  import opened Wire
  import opened Swarm

  /** A full export of `source` sent to and delivered at `target`. */
  ghost predicate Synced(s: State, s': State, source: U64, target: U64)
  {
    exists hw: U64, digest: U64, recs: seq<Rec> :: SyncedBy(s, s', source, target, hw, digest, recs)
  }

  ghost predicate SyncedBy(s: State, s': State, source: U64, target: U64, hw: U64, digest: U64, recs: seq<Rec>)
  {
    && source in s.nodes && FullExport(s.nodes[source].world, recs)
    && Enabled(s, Send(source, hw, digest, recs))
    && var s1 := Apply(s, Send(source, hw, digest, recs));
    var d := Deliver(target, EncFrame(source, SHARED_OWNER, hw, digest, recs));
    Enabled(s1, d) && s' == Apply(s1, d)
  }

  /** Every version some node stores. */
  ghost function HeldBy(s: State): set<Rec>
  {
    set id, r | id in s.nodes && r in s.nodes[id].world.Values :: r
  }

  ghost function KeysOf(recs: set<Rec>): set<U32>
  {
    set r | r in recs :: HashName(r.name)
  }

  /** `w` holds a version at least as new of every record. */
  ghost predicate Dominates(w: World, recs: set<Rec>)
  {
    forall r :: r in recs ==> HashName(r.name) in w && !Beats(r, w[HashName(r.name)])
  }

  /** A replica made of versions of `all`, with a slot for each of their keys. */
  ghost predicate Within(p: Replica, all: set<Rec>)
  {
    p.world.Values <= all && Keyed(p.world) && RoomFor(p, KeysOf(all))
  }

  lemma JoinDominates(a: World, b: World, recs: set<Rec>)
    requires Dominates(a, recs) || Dominates(b, recs)
    requires Keyed(a) && Keyed(b)
    ensures Dominates(Join(a, b), recs)
  {
    hide HashName;
  }

  lemma JoinWithin(a: World, b: World, all: set<Rec>)
    requires a.Values <= all && b.Values <= all && Keyed(a) && Keyed(b)
    ensures Join(a, b).Values <= all && Keyed(Join(a, b))
  {
    hide HashName;
    forall r | r in Join(a, b).Values ensures r in all {
      var k :| k in Join(a, b) && Join(a, b)[k] == r;
      assert k in a ==> a[k] in a.Values;
      assert k in b ==> b[k] in b.Values;
    }
  }

  lemma RoomForLess(p: Replica, few: set<U32>, many: set<U32>)
    requires RoomFor(p, many) && few <= many
    ensures RoomFor(p, few)
  {
    SubsetSize(few - p.world.Keys, many - p.world.Keys);
  }

  /** One sync: the target joins the source's map, everyone else is untouched. */
  lemma SyncStep(s: State, s': State, j: U64, i: U64, all: set<Rec>)
    requires Inv(s) && i in s.nodes && j in s.nodes && i != j && j != SHARED_OWNER && Synced(s, s', j, i)
    requires Within(s.nodes[i], all) && Within(s.nodes[j], all)
    ensures Inv(s') && s'.nodes.Keys == s.nodes.Keys && Within(s'.nodes[i], all)
    ensures s'.nodes[i].world == Join(s.nodes[i].world, s.nodes[j].world)
    ensures forall n :: n in s.nodes && n != i ==> s'.nodes[n] == s.nodes[n]
  {
    hide HashName, RoomFor, EncFrame, Join, Enabled, Apply, Inv, MergeAll, Accepted, KeysOf, Keyed;
    var hw: U64, digest: U64, recs: seq<Rec> :| SyncedBy(s, s', j, i, hw, digest, recs);
    var p, v := s.nodes[i], s.nodes[j].world;
    StoredAreLogged(s, j);
    KeysHeld(v, all);
    RoomForLess(p, v.Keys, KeysOf(all));
    DeliverFull(s, i, j, hw, digest, recs);
    JoinWithin(p.world, v, all);
    ExportedKeys(v, recs);
    AllAccepted(p, recs, KeysOf(all));
  }

  lemma KeysHeld(v: World, all: set<Rec>)
    requires Keyed(v) && v.Values <= all
    ensures v.Keys <= KeysOf(all)
  {
    hide HashName;
    forall k | k in v.Keys ensures k in KeysOf(all) {
      assert v[k] in v.Values;
    }
  }

  // ----- Any order of syncs ------------------------------------------------------------------------

  ghost predicate SyncRun(states: seq<State>, pairs: seq<(U64, U64)>)
  {
    && |states| == |pairs| + 1 && Inv(states[0])
    && forall n :: 0 <= n < |pairs| ==>
         && pairs[n].0 in states[0].nodes && pairs[n].1 in states[0].nodes && pairs[n].0 != pairs[n].1
         && pairs[n].0 != SHARED_OWNER && Synced(states[n], states[n + 1], pairs[n].0, pairs[n].1)
  }

  ghost predicate SlotsSuffice(s: State)
  {
    forall id :: id in s.nodes ==> RoomFor(s.nodes[id], KeysOf(HeldBy(s)))
  }

  /** How far the first `n` syncs have come: each target dominates what its source first held. */
  ghost predicate Sofar(states: seq<State>, pairs: seq<(U64, U64)>, n: nat)
    requires n <= |pairs| < |states|
  {
    var s0, s, all := states[0], states[n], HeldBy(states[0]);
    && Inv(s) && s.nodes.Keys == s0.nodes.Keys
    && (forall id :: id in s0.nodes ==>
          Within(s.nodes[id], all) && Dominates(s.nodes[id].world, s0.nodes[id].world.Values))
    && (forall m :: 0 <= m < n && pairs[m].0 in s0.nodes && pairs[m].1 in s0.nodes ==>
          Dominates(s.nodes[pairs[m].1].world, s0.nodes[pairs[m].0].world.Values))
  }

  lemma {:induction false} SyncsProgress(states: seq<State>, pairs: seq<(U64, U64)>, n: nat)
    requires SyncRun(states, pairs) && SlotsSuffice(states[0]) && n <= |pairs|
    ensures Sofar(states, pairs, n)
  {
    hide HashName, Inv, Dominates, RoomFor, KeysOf, Synced, Join, Keyed;
    if n == 0 {
      Beginning(states[0]);
    } else {
      SyncsProgress(states, pairs, n - 1);
      OneSync(states, pairs, n - 1);
    }
  }

  lemma Beginning(s: State)
    requires Inv(s) && SlotsSuffice(s)
    ensures forall id :: id in s.nodes ==>
              Within(s.nodes[id], HeldBy(s)) && Dominates(s.nodes[id].world, s.nodes[id].world.Values)
  {
    hide HashName, Inv, RoomFor, KeysOf;
    forall id | id in s.nodes
      ensures Within(s.nodes[id], HeldBy(s)) && Dominates(s.nodes[id].world, s.nodes[id].world.Values)
    {
      StoredAreLogged(s, id);
      WorldIsTopOfItself(s.nodes[id].world);
    }
  }

  lemma OneSync(states: seq<State>, pairs: seq<(U64, U64)>, n: nat)
    requires SyncRun(states, pairs) && n < |pairs| && Sofar(states, pairs, n)
    ensures Sofar(states, pairs, n + 1)
  {
    hide HashName, Inv, Dominates, RoomFor, KeysOf, Synced, Join, Keyed, HeldBy;
    var s0, s, s', all := states[0], states[n], states[n + 1], HeldBy(states[0]);
    var j, i := pairs[n].0, pairs[n].1;
    SyncStep(s, s', j, i, all);
    forall id | id in s0.nodes
      ensures Within(s'.nodes[id], all) && Dominates(s'.nodes[id].world, s0.nodes[id].world.Values)
    {
      if id == i { StillDominates(s, i, j, s0.nodes[id].world.Values); }
    }
    forall m | 0 <= m < n + 1 && pairs[m].0 in s0.nodes && pairs[m].1 in s0.nodes
      ensures Dominates(s'.nodes[pairs[m].1].world, s0.nodes[pairs[m].0].world.Values)
    {
      if pairs[m].1 == i { StillDominates(s, i, j, s0.nodes[pairs[m].0].world.Values); }
    }
  }

  lemma StillDominates(s: State, i: U64, j: U64, recs: set<Rec>)
    requires i in s.nodes && j in s.nodes && Keyed(s.nodes[i].world) && Keyed(s.nodes[j].world)
    requires Dominates(s.nodes[i].world, recs) || Dominates(s.nodes[j].world, recs)
    ensures Dominates(Join(s.nodes[i].world, s.nodes[j].world), recs)
  {
    JoinDominates(s.nodes[i].world, s.nodes[j].world, recs);
  }

  /** After each node took in a full export of every other node, in any order and with any
      repetitions, all nodes hold the same map: the winners of everything all of them held. */
  lemma AllPairsAgree(states: seq<State>, pairs: seq<(U64, U64)>, i: U64)
    requires SyncRun(states, pairs) && SlotsSuffice(states[0])
    requires forall x, y :: x in states[0].nodes && y in states[0].nodes && x != y ==> (x, y) in pairs
    requires i in states[0].nodes
    ensures var t, all := states[|pairs|], HeldBy(states[0]);
            && Coherent(all) && i in t.nodes && IsTop(t.nodes[i].world, all)
            && (forall j :: j in t.nodes ==> t.nodes[j].world == t.nodes[i].world)
  {
    hide HashName, Inv, Dominates, RoomFor, KeysOf, Synced, IsTop, Coherent, HeldBy;
    SyncsProgress(states, pairs, |pairs|);
    HeldAreLogged(states[0]);
    var t, all := states[|pairs|], HeldBy(states[0]);
    forall j | j in t.nodes ensures IsTop(t.nodes[j].world, all) {
      TopOfAll(states, pairs, j);
    }
    forall j | j in t.nodes ensures t.nodes[j].world == t.nodes[i].world {
      TopUnique(t.nodes[j].world, t.nodes[i].world, all);
    }
  }

  lemma HeldAreLogged(s: State)
    requires Inv(s)
    ensures Coherent(HeldBy(s))
  {
    hide HashName, Inv, Coherent;
    forall r | r in HeldBy(s) ensures r in s.log {
      var id :| id in s.nodes && r in s.nodes[id].world.Values;
      StoredAreLogged(s, id);
    }
    InvCoherent(s);
    CoherentSubset(HeldBy(s), s.log);
  }

  lemma TopOfAll(states: seq<State>, pairs: seq<(U64, U64)>, i: U64)
    requires |pairs| < |states| && Sofar(states, pairs, |pairs|) && i in states[0].nodes
    requires forall x, y :: x in states[0].nodes && y in states[0].nodes && x != y ==> (x, y) in pairs
    ensures IsTop(states[|pairs|].nodes[i].world, HeldBy(states[0]))
  {
    hide HashName, Inv, RoomFor, KeysOf, Dominates, HeldBy, Keyed;
    var s0, w, all := states[0], states[|pairs|].nodes[i].world, HeldBy(states[0]);
    forall j | j in s0.nodes ensures Dominates(w, s0.nodes[j].world.Values) {
      if j != i {
        assert (j, i) in pairs;
        var m :| 0 <= m < |pairs| && pairs[m] == (j, i);
      }
    }
    DominatesAll(w, s0);
    TopFrom(w, all);
  }

  lemma DominatesAll(w: World, s: State)
    requires forall j :: j in s.nodes ==> Dominates(w, s.nodes[j].world.Values)
    ensures Dominates(w, HeldBy(s))
  {
    hide HashName;
    forall r | r in HeldBy(s) ensures HashName(r.name) in w && !Beats(r, w[HashName(r.name)]) {
      var j :| j in s.nodes && r in s.nodes[j].world.Values;
      assert Dominates(w, s.nodes[j].world.Values);
    }
  }

  lemma TopFrom(w: World, all: set<Rec>)
    requires Keyed(w) && w.Values <= all && Dominates(w, all)
    ensures IsTop(w, all)
  {
    hide HashName;
    assert forall k :: k in w ==> w[k] in w.Values;
  }
}
