/** A swarm of replicas of the shared stream over a network that loses, duplicates, delays
    and reorders frames. Nodes write, compare-and-set, delete, relay whatever they store and
    merge whatever arrives; the network holds encoded frames, and delivery parses them. */
module Swarm {
  import opened Bytes
  import opened Hashing
  import opened Lww
  import opened Wire

  /** `seen`, `log` and `cause` are history: the versions a node has written or merged, every
      version ever written, and what the author of a version had seen when writing it. */
  datatype State = State(nodes: map<U64, Replica>, net: set<seq<Byte>>,
                         seen: map<U64, set<Rec>>, log: set<Rec>, cause: map<Rec, set<Rec>>)

  datatype Action =
    | Set(id: U64, name: seq<Byte>, data: seq<Byte>)
    | Cas(id: U64, name: seq<Byte>, expected: Option<seq<Byte>>, data: seq<Byte>)
    | Remove(id: U64, name: seq<Byte>)
    | Send(id: U64, hw: U64, digest: U64, recs: seq<Rec>)
    | Deliver(id: U64, frame: seq<Byte>)
    | Lose(frame: seq<Byte>)
    | Private(id: U64, clock: U64, slots: nat)   // work on other streams: the clock may rise and slots be taken
    | Compact(id: U64, slots: nat)   // unnamed tombstones freed: the shared map is untouched (SlotMaps.CompactShared)

  // ----- Steps ------------------------------------------------------------------------

  predicate NameOk(name: seq<Byte>)
  {
    |name| <= NAME_CAP && 0 !in name
  }

  predicate CanTick(s: State, id: U64)
  {
    id in s.nodes && id in s.seen && s.nodes[id].clock + 1 < TWO_64
  }

  ghost predicate Enabled(s: State, a: Action)
  {
    match a
    case Set(id, name, data) => CanTick(s, id) && NameOk(name) && |data| < TWO_32
    case Cas(id, name, expected, data) => CanTick(s, id) && NameOk(name) && |data| < TWO_32
    case Remove(id, name) => CanTick(s, id)
    case Send(id, hw, digest, recs) =>
      && id in s.nodes && |recs| < TWO_64
      && forall r :: r in recs ==> r in s.nodes[id].world.Values && Encodable(r)
    case Deliver(id, frame) => id in s.nodes && id in s.seen && frame in s.net
    case Lose(frame) => true
    case Private(id, clock, slots) => CanTick(s, id) && s.nodes[id].clock <= clock
    case Compact(id, slots) => id in s.nodes
  }

  /** The version a local operation writes, if it writes one. */
  function Written(p: Replica, a: Action): (r: Option<Rec>)
    requires p.clock + 1 < TWO_64
  {
    match a
    case Set(id, name, data) =>
      if name == [] || data == [] || !p.Room(HashName(name)) then None
      else Some(Rec(name, id, p.clock + 1, false, data))
    case Cas(id, name, expected, data) =>
      if name == [] || data == [] || !CasHolds(p, HashName(name), expected) || !p.Room(HashName(name)) then None
      else Some(Rec(name, id, p.clock + 1, false, data))
    case Remove(id, name) =>
      if !p.Live(HashName(name)) then None
      else Some(p.world[HashName(name)].(origin := id, ts := p.clock + 1, tomb := true, data := []))
    case _ => None
  }

  function Operate(p: Replica, a: Action): Replica
    requires p.clock + 1 < TWO_64
  {
    match a
    case Set(id, name, data) => SetShared(p, id, name, data)
    case Cas(id, name, expected, data) => SetSharedCas(p, id, name, expected, data)
    case Remove(id, name) => RemoveShared(p, id, name)
    case Private(id, clock, slots) => p.(clock := clock, used := slots)
    case _ => p
  }

  ghost function Local(s: State, id: U64, a: Action): State
    requires CanTick(s, id)
  {
    var p := s.nodes[id];
    var s' := s.(nodes := s.nodes[id := Operate(p, a)]);
    match Written(p, a)
    case None => s'
    case Some(r) => s'.(seen := s.seen[id := s.seen[id] + {r}], log := s.log + {r}, cause := s.cause[r := s.seen[id]])
  }

  ghost function Apply(s: State, a: Action): State
    requires Enabled(s, a)
  {
    match a
    case Set(id, _, _) => Local(s, id, a)
    case Cas(id, _, _, _) => Local(s, id, a)
    case Remove(id, _) => Local(s, id, a)
    case Private(id, _, _) => Local(s, id, a)
    case Send(id, hw, digest, recs) => s.(net := s.net + {EncFrame(id, SHARED_OWNER, hw, digest, recs)})
    case Deliver(id, frame) =>
      (match ParseFrame(frame, id)
       case Rejected => s
       case Parsed(_, _, _, recs, _) =>
         s.(nodes := s.nodes[id := MergeAll(s.nodes[id], recs)],
            seen := s.seen[id := s.seen[id] + Accepted(s.nodes[id], recs)]))
    case Lose(frame) => s.(net := s.net - {frame})
    case Compact(id, slots) => s.(nodes := s.nodes[id := s.nodes[id].(used := slots)])
  }

  // ----- The invariant -------------------------------------------------------------------

  /** A frame a node of the swarm has sent, with records of the log only. */
  ghost predicate FromLog(frame: seq<Byte>, log: set<Rec>)
  {
    exists sender: U64, hw: U64, digest: U64, recs: seq<Rec> ::
      && |recs| < TWO_64 && (forall r :: r in recs ==> r in log && Encodable(r))
      && frame == EncFrame(sender, SHARED_OWNER, hw, digest, recs)
  }

  ghost predicate NodeOk(p: Replica, seen: set<Rec>, log: set<Rec>)
  {
    IsTop(p.world, seen) && seen <= log && forall r :: r in seen ==> r.ts <= p.clock
  }

  ghost predicate LogOk(s: State)
  {
    && Coherent(s.log)
    && (forall r :: r in s.log ==> Proper(r) && r.origin in s.nodes && r.ts <= s.nodes[r.origin].clock)
    && (forall r :: r in s.log ==> r in s.cause && s.cause[r] <= s.log && forall c :: c in s.cause[r] ==> c.ts < r.ts)
  }

  ghost predicate Inv(s: State)
  {
    && s.seen.Keys == s.nodes.Keys
    && (forall id :: id in s.nodes ==> NodeOk(s.nodes[id], s.seen[id], s.log))
    && LogOk(s)
    && (forall f :: f in s.net ==> FromLog(f, s.log))
  }

  ghost predicate Init(s: State)
  {
    && s.seen.Keys == s.nodes.Keys && s.net == {} && s.log == {} && s.cause == map[]
    && forall id :: id in s.nodes ==> s.nodes[id].world == map[] && s.seen[id] == {}
  }

  lemma InitInv(s: State)
    requires Init(s)
    ensures Inv(s)
  {}

  // ----- Local steps ----------------------------------------------------------------------

  lemma TopPut(w: World, seen: set<Rec>, r: Rec)
    requires IsTop(w, seen) && forall x :: x in seen ==> !Beats(x, r)
    ensures IsTop(w[HashName(r.name) := r], seen + {r})
  {
    hide HashName;
  }

  /** What one local operation does to the top of the stack. */
  lemma WrittenIsNewTop(p: Replica, seen: set<Rec>, log: set<Rec>, a: Action)
    requires p.clock + 1 < TWO_64 && NodeOk(p, seen, log)
    requires forall r :: r in log ==> Proper(r)
    requires a.Set? || a.Cas? ==> NameOk(a.name) && |a.data| < TWO_32
    requires a.Private? ==> p.clock <= a.clock
    ensures var q, w := Operate(p, a), Written(p, a);
            && p.clock <= q.clock && Grows(p.world, q.world)
            && (w.None? ==> q.world == p.world)
            && (w.Some? ==> Proper(w.value) && w.value.ts == p.clock + 1 == q.clock && w.value.origin == a.id
                            && IsTop(q.world, seen + {w.value}))
  {
    hide HashName;
    var q, w := Operate(p, a), Written(p, a);
    if w.Some? {
      var k := HashName(a.name);
      if a.Remove? {
        assert p.world[k] in seen;
      }
      assert q.world == p.world[k := w.value];
      assert forall r :: r in seen ==> !Beats(r, w.value);
      TopPut(p.world, seen, w.value);
    }
  }

  /** The author of a version written by compare-and-set held the expected bytes just before. */
  lemma CasAuthorHeld(p: Replica, a: Action)
    requires p.clock + 1 < TWO_64 && a.Cas? && Written(p, a).Some?
    ensures var k := HashName(a.name);
            match a.expected
            case Some(e) => k in p.world && !p.world[k].tomb && p.world[k].data == e
            case None => k !in p.world || p.world[k].tomb
    ensures Written(p, a).value == Rec(a.name, a.id, p.clock + 1, false, a.data)
  {
    hide HashName;
  }

  lemma FromLogMonotone(f: seq<Byte>, log: set<Rec>, log': set<Rec>)
    requires FromLog(f, log) && log <= log'
    ensures FromLog(f, log')
  {
    hide EncFrame;
    var sender: U64, hw: U64, digest: U64, recs: seq<Rec> :|
      && |recs| < TWO_64 && (forall r :: r in recs ==> r in log && Encodable(r))
      && f == EncFrame(sender, SHARED_OWNER, hw, digest, recs);
    assert forall r :: r in recs ==> r in log';
  }

  lemma LocalKeepsLog(s: State, id: U64, a: Action)
    requires Inv(s) && CanTick(s, id)
    requires (a.Set? || a.Cas? || a.Remove? || a.Private?) && id == a.id
    requires a.Set? || a.Cas? ==> NameOk(a.name) && |a.data| < TWO_32
    requires a.Private? ==> s.nodes[id].clock <= a.clock
    ensures LogOk(Local(s, id, a))
  {
    hide Operate, Written, EncFrame, IsTop, FromLog;
    var p, s' := s.nodes[id], Local(s, id, a);
    WrittenIsNewTop(p, s.seen[id], s.log, a);
    var w := Written(p, a);
    if w.Some? {
      assert forall r :: r in s.log ==> !SameVersion(r, w.value);
      assert Coherent(s'.log);
    }
  }

  lemma LocalKeepsInv(s: State, id: U64, a: Action)
    requires Inv(s) && CanTick(s, id)
    requires (a.Set? || a.Cas? || a.Remove? || a.Private?) && id == a.id
    requires a.Set? || a.Cas? ==> NameOk(a.name) && |a.data| < TWO_32
    requires a.Private? ==> s.nodes[id].clock <= a.clock
    ensures Inv(Local(s, id, a))
  {
    hide Operate, Written, EncFrame, IsTop, FromLog;
    var s' := Local(s, id, a);
    WrittenIsNewTop(s.nodes[id], s.seen[id], s.log, a);
    LocalKeepsLog(s, id, a);
    hide LogOk;
    forall f | f in s'.net ensures FromLog(f, s'.log) {
      FromLogMonotone(f, s.log, s'.log);
    }
  }

  // ----- Network steps -------------------------------------------------------------------------

  lemma DeliveredFromLog(frame: seq<Byte>, log: set<Rec>, self: U64)
    requires FromLog(frame, log) && forall r :: r in log ==> Proper(r)
    ensures var p := ParseFrame(frame, self);
            p.Parsed? ==> p.owner == SHARED_OWNER && p.complete && forall r :: r in p.recs ==> r in log
  {
    hide ParseFrame, EncFrame;
    var sender: U64, hw: U64, digest: U64, recs: seq<Rec> :|
      && |recs| < TWO_64 && (forall r :: r in recs ==> r in log && Encodable(r))
      && frame == EncFrame(sender, SHARED_OWNER, hw, digest, recs);
    FrameRoundTrip(self, sender, SHARED_OWNER, hw, digest, recs);
  }

  lemma MergeKeepsNode(p: Replica, seen: set<Rec>, log: set<Rec>, recs: seq<Rec>)
    requires NodeOk(p, seen, log)
    requires forall r :: r in recs ==> r in log && Proper(r)
    ensures NodeOk(MergeAll(p, recs), seen + Accepted(p, recs), log)
    ensures p.clock <= MergeAll(p, recs).clock
  {
    MergeAllKeepsTop(p, seen, recs);
    AcceptedSubset(p, recs);
    AcceptedClock(p, recs);
    MergeAllGrows(p, recs);
  }

  lemma DeliverKeepsInv(s: State, id: U64, frame: seq<Byte>)
    requires Inv(s) && Enabled(s, Deliver(id, frame))
    ensures Inv(Apply(s, Deliver(id, frame)))
  {
    hide ParseFrame, FromLog, NodeOk, MergeAll, Accepted, EncFrame;
    DeliveredFromLog(frame, s.log, id);
    var p := ParseFrame(frame, id);
    if p.Parsed? {
      MergeKeepsNode(s.nodes[id], s.seen[id], s.log, p.recs);
    }
  }

  lemma SendKeepsInv(s: State, id: U64, hw: U64, digest: U64, recs: seq<Rec>)
    requires Inv(s) && Enabled(s, Send(id, hw, digest, recs))
    ensures Inv(Apply(s, Send(id, hw, digest, recs)))
  {
    hide EncFrame, HashName;
    var s' := Apply(s, Send(id, hw, digest, recs));
    assert NodeOk(s.nodes[id], s.seen[id], s.log);
    forall r | r in recs ensures r in s.log {
      var k :| k in s.nodes[id].world && s.nodes[id].world[k] == r;
    }
    assert FromLog(EncFrame(id, SHARED_OWNER, hw, digest, recs), s.log);
  }

  /** Every step keeps the invariant. */
  lemma StepKeepsInv(s: State, a: Action)
    requires Inv(s) && Enabled(s, a)
    ensures Inv(Apply(s, a))
  {
    match a
    case Set(id, _, _) => LocalKeepsInv(s, id, a);
    case Cas(id, _, _, _) => LocalKeepsInv(s, id, a);
    case Remove(id, _) => LocalKeepsInv(s, id, a);
    case Private(id, _, _) => LocalKeepsInv(s, id, a);
    case Send(id, hw, digest, recs) => SendKeepsInv(s, id, hw, digest, recs);
    case Deliver(id, frame) => DeliverKeepsInv(s, id, frame);
    case Lose(_) =>
    case Compact(id, slots) =>
      hide IsTop, FromLog;
  }

  // ----- Runs --------------------------------------------------------------------------------

  ghost predicate Possible(s: State, run: seq<Action>)
    decreases |run|
  {
    run == [] || (Enabled(s, run[0]) && Possible(Apply(s, run[0]), run[1..]))
  }

  ghost function After(s: State, run: seq<Action>): State
    requires Possible(s, run)
    decreases |run|
  {
    if run == [] then s else After(Apply(s, run[0]), run[1..])
  }

  lemma {:induction false} RunKeepsInv(s: State, run: seq<Action>)
    requires Inv(s) && Possible(s, run)
    ensures Inv(After(s, run))
    decreases |run|
  {
    if run != [] {
      StepKeepsInv(s, run[0]);
      RunKeepsInv(Apply(s, run[0]), run[1..]);
    }
  }

  /** Strong convergence. In every state a swarm can reach, a version number names one write,
      and two nodes that have taken in the same versions store the same map. */
  lemma StrongConvergence(s: State, run: seq<Action>, i: U64, j: U64)
    requires Init(s) && Possible(s, run)
    requires var t := After(s, run); i in t.nodes && j in t.nodes && i in t.seen && j in t.seen
    ensures var t := After(s, run);
            && Coherent(t.log)
            && (t.seen[i] == t.seen[j] ==> t.nodes[i].world == t.nodes[j].world)
  {
    hide After, Possible, IsTop, FromLog;
    InitInv(s);
    RunKeepsInv(s, run);
    var t := After(s, run);
    assert NodeOk(t.nodes[i], t.seen[i], t.log) && NodeOk(t.nodes[j], t.seen[j], t.log);
    if t.seen[i] == t.seen[j] {
      TopUnique(t.nodes[i].world, t.nodes[j].world, t.seen[i]);
    }
  }

  // ----- Versions grow, deletes last ------------------------------------------------------------

  lemma StepGrows(s: State, a: Action, id: U64)
    requires Inv(s) && Enabled(s, a) && id in s.nodes
    ensures id in Apply(s, a).nodes
    ensures Grows(s.nodes[id].world, Apply(s, a).nodes[id].world)
  {
    hide IsTop, FromLog, Grows, HashName, ParseFrame, EncFrame, Operate, Written, MergeAll, Accepted, Coherent;
    assert Grows(s.nodes[id].world, s.nodes[id].world) by { GrowsReflexive(s.nodes[id].world); }
    match a
    case Deliver(n, frame) =>
      var p := ParseFrame(frame, n);
      if p.Parsed? {
        MergeAllGrows(s.nodes[n], p.recs);
      }
    case Send(_, _, _, _) =>
    case Lose(_) =>
    case Compact(_, _) =>
    case _ =>
      WrittenIsNewTop(s.nodes[a.id], s.seen[a.id], s.log, a);
  }

  /** Over every run, no stored version is ever replaced by one it does not lose to. So a
      tombstone stays until a strictly newer write replaces it. */
  lemma {:induction false} RunGrows(s: State, run: seq<Action>, id: U64)
    requires Inv(s) && Possible(s, run) && id in s.nodes
    ensures id in After(s, run).nodes
    ensures Grows(s.nodes[id].world, After(s, run).nodes[id].world)
    decreases |run|
  {
    hide Inv, Grows, Enabled, Apply;
    if run == [] {
      GrowsReflexive(s.nodes[id].world);
    } else {
      StepKeepsInv(s, run[0]);
      StepGrows(s, run[0], id);
      var s1 := Apply(s, run[0]);
      RunGrows(s1, run[1..], id);
      GrowsTransitive(s.nodes[id].world, s1.nodes[id].world, After(s1, run[1..]).nodes[id].world);
    }
  }

  lemma DeletesLast(s: State, run: seq<Action>, id: U64, k: U32)
    requires Inv(s) && Possible(s, run) && id in s.nodes
    requires k in s.nodes[id].world && s.nodes[id].world[k].tomb
    ensures id in After(s, run).nodes && k in After(s, run).nodes[id].world
    ensures var r := After(s, run).nodes[id].world[k];
            !r.tomb ==> Beats(r, s.nodes[id].world[k])
  {
    hide Inv, After, Possible;
    RunGrows(s, run, id);
  }

  /** Every stored timestamp is at most the node's clock, in every reachable state. */
  lemma ClocksDominate(s: State, id: U64)
    requires Inv(s) && id in s.nodes
    ensures ClockBounds(s.nodes[id])
  {
    hide HashName, FromLog;
    assert NodeOk(s.nodes[id], s.seen[id], s.log);
  }

  // ----- Causality ------------------------------------------------------------------------------

  /** `path` leads from an older write to a newer one, each step made by a node that had
      merged the previous version, possibly through relays. */
  ghost predicate CausalPath(s: State, path: seq<Rec>)
  {
    && |path| >= 2 && (forall i :: 0 <= i < |path| ==> path[i] in s.log && path[i] in s.cause)
    && forall i :: 0 <= i < |path| - 1 ==> path[i] in s.cause[path[i + 1]]
  }

  /** A write made after merging a version beats it, transitively. */
  lemma {:induction false} CausesBeat(s: State, path: seq<Rec>)
    requires Inv(s) && CausalPath(s, path)
    ensures Beats(path[|path| - 1], path[0])
    decreases |path|
  {
    var n := |path|;
    hide FromLog, IsTop, NodeOk;
    assert path[n - 2] in s.cause[path[n - 2 + 1]];
    if n > 2 {
      CausesBeat(s, path[..n - 1]);
    }
  }

  // ----- Full synchronisation --------------------------------------------------------------------

  /** The records of a full shared export, in any order. */
  ghost predicate FullExport(w: World, recs: seq<Rec>)
  {
    |recs| < TWO_64 && (forall r :: r in recs <==> r in w.Values) && forall r :: r in recs ==> Encodable(r)
  }

  /** Delivering another node's full export makes the receiver's map the join of the two. */
  lemma FullExportJoins(s: State, i: U64, j: U64, hw: U64, digest: U64, recs: seq<Rec>)
    requires i in s.nodes && j in s.nodes && i != j && j != SHARED_OWNER
    requires FullExport(s.nodes[j].world, recs) && RoomFor(s.nodes[i], s.nodes[j].world.Keys)
    requires Inv(s)
    ensures var p := ParseFrame(EncFrame(j, SHARED_OWNER, hw, digest, recs), i);
            p.Parsed? && p.recs == recs && MergeAll(s.nodes[i], recs).world == Join(s.nodes[i].world, s.nodes[j].world)
  {
    var wi, wj := s.nodes[i].world, s.nodes[j].world;
    StoredAreLogged(s, i);
    StoredAreLogged(s, j);
    assert Coherent(wi.Values + wj.Values) by {
      hide *;
      assert Coherent(s.log) by { InvCoherent(s); }
      CoherentSubset(wi.Values + wj.Values, s.log);
    }
    hide HashName, RoomFor, Inv, EncFrame, ParseFrame, Coherent, Keyed;
    FrameRoundTrip(i, j, SHARED_OWNER, hw, digest, recs);
    MergeAllIsJoin(s.nodes[i], wj, recs);
  }

  lemma InvCoherent(s: State)
    requires Inv(s)
    ensures Coherent(s.log)
  {}

  lemma CoherentSubset(a: set<Rec>, b: set<Rec>)
    requires a <= b && Coherent(b)
    ensures Coherent(a)
  {}

  /** The four steps of a two-way full sync: `j` exports to `i`, then `i` exports to `j`. */
  function SyncRun(i: U64, j: U64, hw: U64, digest: U64, recs: seq<Rec>, hw': U64, digest': U64,
                   recs': seq<Rec>): seq<Action>
    requires |recs| < TWO_64 && |recs'| < TWO_64
    requires (forall r :: r in recs ==> Encodable(r)) && forall r :: r in recs' ==> Encodable(r)
  {
    [Send(j, hw, digest, recs), Deliver(i, EncFrame(j, SHARED_OWNER, hw, digest, recs)),
     Send(i, hw', digest', recs'), Deliver(j, EncFrame(i, SHARED_OWNER, hw', digest', recs'))]
  }

  /** One node's full export delivered to another, as two steps. */
  lemma DeliverFull(s: State, i: U64, j: U64, hw: U64, digest: U64, recs: seq<Rec>)
    requires i in s.nodes && j in s.nodes && i != j && j != SHARED_OWNER && Inv(s)
    requires FullExport(s.nodes[j].world, recs) && RoomFor(s.nodes[i], s.nodes[j].world.Keys)
    ensures Enabled(s, Send(j, hw, digest, recs))
    ensures var s1 := Apply(s, Send(j, hw, digest, recs));
            var d := Deliver(i, EncFrame(j, SHARED_OWNER, hw, digest, recs));
            && Enabled(s1, d)
            && var s2 := Apply(s1, d);
            && Inv(s2) && s2.nodes.Keys == s.nodes.Keys
            && s2.nodes[i] == MergeAll(s.nodes[i], recs)
            && s2.nodes[i].world == Join(s.nodes[i].world, s.nodes[j].world)
            && (forall n :: n in s.nodes && n != i ==> s2.nodes[n] == s.nodes[n])
  {
    hide HashName, RoomFor, EncFrame, ParseFrame, Join, MergeAll, Accepted, IsTop, FromLog, LogOk, NodeOk;
    FullExportJoins(s, i, j, hw, digest, recs);
    StepKeepsInv(s, Send(j, hw, digest, recs));
    var s1 := Apply(s, Send(j, hw, digest, recs));
    var d := Deliver(i, EncFrame(j, SHARED_OWNER, hw, digest, recs));
    assert Enabled(s1, d);
    StepKeepsInv(s1, d);
  }

  /** After each of two nodes has taken in the other's full export, in a run of any swarm, the
      two hold the same map: the join of what they held. */
  lemma PairwiseSyncAgrees(s: State, i: U64, j: U64, hw: U64, digest: U64, recs: seq<Rec>,
                           hw': U64, digest': U64, recs': seq<Rec>)
    requires i in s.nodes && j in s.nodes && i != j && i != SHARED_OWNER && j != SHARED_OWNER && Inv(s)
    requires FullExport(s.nodes[j].world, recs) && RoomFor(s.nodes[i], s.nodes[j].world.Keys)
    requires var both := Join(s.nodes[i].world, s.nodes[j].world);
             FullExport(both, recs') && RoomFor(s.nodes[j], both.Keys)
    ensures var run := SyncRun(i, j, hw, digest, recs, hw', digest', recs');
            && Possible(s, run) && i in After(s, run).nodes && j in After(s, run).nodes
            && After(s, run).nodes[i].world == After(s, run).nodes[j].world == Join(s.nodes[i].world, s.nodes[j].world)
  {
    hide RoomFor, EncFrame, Join, Enabled, Apply, Inv, Possible, After;
    var run := SyncRun(i, j, hw, digest, recs, hw', digest', recs');
    hide FullExport;
    DeliverFull(s, i, j, hw, digest, recs);
    var s1 := Apply(s, run[0]);
    var s2 := Apply(s1, run[1]);
    DeliverFull(s2, j, i, hw', digest', recs');
    var s3 := Apply(s2, run[2]);
    var s4 := Apply(s3, run[3]);
    JoinAgain(s, i, j);
    RunOfFour(s, run, s1, s2, s3, s4);
  }

  lemma RunOfFour(s: State, run: seq<Action>, s1: State, s2: State, s3: State, s4: State)
    requires |run| == 4 && Enabled(s, run[0]) && s1 == Apply(s, run[0]) && Enabled(s1, run[1])
             && s2 == Apply(s1, run[1])
    requires Enabled(s2, run[2]) && s3 == Apply(s2, run[2]) && Enabled(s3, run[3]) && s4 == Apply(s3, run[3])
    ensures Possible(s, run) && After(s, run) == s4
  {
    hide Enabled, Apply;
    var r1 := run[1..];
    var r2 := r1[1..];
    var r3 := r2[1..];
    assert r1[0] == run[1] && r2[0] == run[2] && r3[0] == run[3] && r3[1..] == [];
    assert Possible(s4, r3[1..]) && After(s4, r3[1..]) == s4;
    assert Possible(s3, r3) && After(s3, r3) == s4;
    assert Possible(s2, r2) && After(s2, r2) == s4;
    assert Possible(s1, r1) && After(s1, r1) == s4;
  }

  lemma JoinAgain(s: State, i: U64, j: U64)
    requires Inv(s) && i in s.nodes && j in s.nodes
    ensures var wi, wj := s.nodes[i].world, s.nodes[j].world; Join(wj, Join(wi, wj)) == Join(wi, wj)
  {
    var wi, wj := s.nodes[i].world, s.nodes[j].world;
    StoredAreLogged(s, i);
    StoredAreLogged(s, j);
    InvCoherent(s);
    CoherentSubset(wi.Values + wj.Values, s.log);
    hide Inv, Join, Coherent, Keyed;
    JoinLaws(wi, wj, wj);
    JoinLaws(wj, wi, wj);
    JoinLaws(wj, wj, wj);
    JoinLaws(wi, wj, wj);
    assert wi.Values + wj.Values == wj.Values + wi.Values;
  }

  lemma StoredAreLogged(s: State, i: U64)
    requires Inv(s) && i in s.nodes
    ensures Keyed(s.nodes[i].world) && s.nodes[i].world.Values <= s.log
    ensures forall k :: k in s.nodes[i].world ==> Proper(s.nodes[i].world[k])
  {
    hide HashName, FromLog;
    assert NodeOk(s.nodes[i], s.seen[i], s.log);
    var w := s.nodes[i].world;
    forall r | r in w.Values ensures r in s.log {
      var k :| k in w && w[k] == r;
    }
  }
}
