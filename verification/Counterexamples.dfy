/** Concrete runs that show where an expected property fails; the exact conditions stand beside
    the property itself. */
module Counterexamples {
  import opened Bytes
  import opened Cbor
  import opened Hashing
  import opened Sums
  import opened Lww
  import opened Wire
  import opened Slots
  import opened SlotMaps
  import opened Bounded
  import Repair
  import Digest
  import Swarm
  import Drain
  import GossipRun

  // ----- Merging into an empty table -----------------------------------------------------------

  const A: seq<Byte> := [97]
  const B: seq<Byte> := [98]

  lemma Xors()
    ensures XorByte(197, 97) == 164 && XorByte(197, 98) == 167
  {
    assert (197 as bv8) ^ (97 as bv8) == 164;
    assert (197 as bv8) ^ (98 as bv8) == 167;
  }

  lemma KeysDiffer()
    ensures HashName(A) != HashName(B)
  {
    hide XorByte, HashName;
    Xors();
    OneByteHash(97);
    OneByteHash(98);
  }

  lemma OneByteHash(b: Byte)
    ensures HashName([b]) == Step32(2166136261, b)
  {
    hide Step32;
    assert [b][1..] == [];
    assert Fnv32(Step32(2166136261, b), []) == Step32(2166136261, b);
  }

  function SlotFor(r: Rec): Slot
  {
    Slot(true, HashName(r.name), SHARED_OWNER, r.origin, r.name, r.data, r.ts, r.tomb, 0)
  }

  /** A record of a new key takes the slot at the count. */
  lemma MergeNew(t: Table, r: Rec)
    requires t.id != SHARED_OWNER && t.count < |t.slots| && t.slots[t.count] == EMPTY_SLOT && Proper(r)
    requires forall j :: 0 <= j < |t.slots| ==> !Holds(t.slots[j], HashName(r.name), SHARED_OWNER)
    ensures Merge(t, SHARED_OWNER, r)
         == t.(slots := t.slots[t.count := SlotFor(r)], count := t.count + 1, clock := Max(t.clock, r.ts))
  {
    hide HashName;
    assert Find(t.slots, HashName(r.name), SHARED_OWNER) == |t.slots|;
  }

  ghost function One(id: U64, x: Slot): seq<Slot> { EmptyTable(id).slots[0 := x] }

  ghost function Two(id: U64, x: Slot, y: Slot): seq<Slot> { One(id, x)[1 := y] }

  lemma FirstMerge(id: U64, r: Rec)
    requires id != SHARED_OWNER && Proper(r)
    ensures Merge(EmptyTable(id), SHARED_OWNER, r) == Table(id, One(id, SlotFor(r)), 1, r.ts)
  {
    hide HashName, Merge;
    MergeNew(EmptyTable(id), r);
  }

  lemma SecondMerge(id: U64, x: Slot, clock: U64, r: Rec)
    requires id != SHARED_OWNER && Proper(r) && x.key != HashName(r.name)
    ensures Merge(Table(id, One(id, x), 1, clock), SHARED_OWNER, r)
            == Table(id, Two(id, x, SlotFor(r)), 2, Max(clock, r.ts))
  {
    hide HashName, Merge;
    MergeNew(Table(id, One(id, x), 1, clock), r);
  }

  // ----- A record merged below the watermark --------------------------------------------------

  const EARLY: Rec := Rec(A, 2, 5, false, [1])
  const LATE: Rec := Rec(B, 3, 3, false, [1])

  lemma CarriesFirst(order: seq<nat>)
    requires order != []
    ensures Carried(order, 1) == {order[0]}
  {
    assert order[0] in Carried(order, 1);
  }

  /** One export of a single record at timestamp 5 moves the watermark to 5. */
  lemma ExportOne(id: U64, c: GossipRun.Config)
    ensures var s := One(id, SlotFor(EARLY));
            && Sized(s) && Order(s, 0, [0]) && Window(s, [0], c.base, c.cap, 1)
            && WatermarkOf(s, [0], 1) == 5
            && Mark(s, Carried([0], 1), 5) == One(id, SlotFor(EARLY).(lastExport := 5))
  {
    hide HashName;
    var s := One(id, SlotFor(EARLY));
    assert EligibleSet(s, 0) == {0};
    CarriesFirst([0]);
    assert HighCarried(s, [0], 0) == 0 && HighCarried(s, [0], 1) == 5;
    assert LowLeft(s, [0], 1) == NONE_LEFT;
  }

  ghost function Fresh(id: U64): GossipRun.State { GossipRun.State(EmptyTable(id), 0, {}, {}) }

  ghost function BeforeLate(id: U64): GossipRun.State
  {
    GossipRun.State(Table(id, One(id, SlotFor(EARLY).(lastExport := 5)), 1, 5), 5, {EARLY}, {EARLY})
  }

  /** From a fresh node: a record of timestamp 5 arrives and is sent. */
  lemma ReachesFive(id: U64, c: GossipRun.Config)
    requires id != SHARED_OWNER
    ensures var run := [GossipRun.Arrive(EARLY), GossipRun.Gossip([0], 1)];
            GossipRun.Possible(c, Fresh(id), run) && GossipRun.After(c, Fresh(id), run) == BeforeLate(id)
    ensures GossipRun.Inv(Fresh(id)) && GossipRun.Inv(BeforeLate(id))
  {
    hide HashName, Merge, Mark, WatermarkOf, Window, Order, GossipRun.Inv, View;
    var g0, a1, a2 := Fresh(id), GossipRun.Arrive(EARLY), GossipRun.Gossip([0], 1);
    FirstMerge(id, EARLY);
    ExportOne(id, c);
    var g1 := GossipRun.Apply(c, g0, a1);
    assert g1 == GossipRun.State(Table(id, One(id, SlotFor(EARLY)), 1, 5), 0, {EARLY}, {});
    assert GossipRun.Enabled(c, g1, a2);
    var order: seq<nat> := [0];
    assert RecOf(g1.t.slots[order[0]]) in GossipRun.CarriedRecs(g1.t.slots, order, 1);
    assert GossipRun.CarriedRecs(g1.t.slots, order, 1) == {EARLY};
    assert GossipRun.Apply(c, g1, a2) == BeforeLate(id);
    var run := [a1, a2];
    assert run[1..] == [a2] && [a2][1..] == [];
    var g2 := BeforeLate(id);
    assert GossipRun.Possible(c, g2, []) && GossipRun.After(c, g2, []) == g2;
    assert GossipRun.Possible(c, g1, [a2]) && GossipRun.After(c, g1, [a2]) == g2;
    GossipRun.FreshInv(id);
    GossipRun.NothingLost(c, g0, run);
  }

  /** Then a record of timestamp 3 arrives. It is stored, and no run ever sends it. */
  lemma MergedBelowNeverSent(id: U64, c: GossipRun.Config, run: seq<GossipRun.Action>)
    requires id != SHARED_OWNER
    ensures GossipRun.Enabled(c, BeforeLate(id), GossipRun.Arrive(LATE))
    ensures var g := GossipRun.Apply(c, BeforeLate(id), GossipRun.Arrive(LATE));
            && GossipRun.Stores(g, LATE) && LATE.ts <= g.wm
            && (GossipRun.Possible(c, g, run) ==> LATE !in GossipRun.After(c, g, run).sent)
  {
    hide HashName, Merge, GossipRun.Inv, GossipRun.After, GossipRun.Possible;
    var g0 := BeforeLate(id);
    KeysDiffer();
    ReachesFive(id, c);
    SecondMerge(id, SlotFor(EARLY).(lastExport := 5), 5, LATE);
    var g := GossipRun.Apply(c, g0, GossipRun.Arrive(LATE));
    var s := g.t.slots;
    assert s == Two(id, SlotFor(EARLY).(lastExport := 5), SlotFor(LATE));
    assert !Holds(s[0], HashName(B), SHARED_OWNER) && Holds(s[1], HashName(B), SHARED_OWNER);
    assert Find(s, HashName(B), SHARED_OWNER) == 1;
    ViewHas(s, HashName(B), SHARED_OWNER);
    hide View;
    GossipRun.StepKeeps(c, g0, GossipRun.Arrive(LATE));
    if GossipRun.Possible(c, g, run) {
      GossipRun.NeverBelowWatermark(c, g, run, LATE);
    }
  }

  // ----- Two records of one timestamp that do not fit one frame -------------------------------

  function Payload(): seq<Byte> { seq(200, i => 1) }

  function Left(): Rec { Rec(A, 2, 7, false, Payload()) }

  function Right(): Rec { Rec(B, 3, 7, false, Payload()) }

  /** The two merged into a fresh node, with the gossip frame cap of 320 bytes. */
  ghost function Tied(id: U64): Quiet
  {
    Quiet(Two(id, SlotFor(Left()), SlotFor(Right())), 0, 7, HeaderBudget(id), 320)
  }

  lemma TiedIsReached(id: U64)
    requires id != SHARED_OWNER
    ensures Merge(Merge(EmptyTable(id), SHARED_OWNER, Left()), SHARED_OWNER, Right()) == Table(id, Tied(id).s, 2, 7)
  {
    hide HashName, Merge;
    KeysDiffer();
    FirstMerge(id, Left());
    SecondMerge(id, SlotFor(Left()), 7, Right());
  }

  lemma TieTooLarge(id: U64)
    ensures Tied(id).Ok() && !Tied(id).TieFits(7)
  {
    hide HashName, Sum;
    var q := Tied(id);
    assert RecOf(q.s[0]) == Left() && RecOf(q.s[1]) == Right();
    var both: set<nat>, right: set<nat>, none: set<nat> := {0, 1}, {1}, {};
    assert q.Tied(7) == both;
    var f := SizeAt(q.s);
    assert f(0) >= 200 && f(1) >= 200;
    SumPick<nat>(both, f, 0);
    assert both - {0} == right;
    SumPick(right, f, 1);
    assert right - {1} == none;
    SumSubset(none, right, f);
  }

  /** However often it exports, the node still has a backlog. */
  lemma TieNeverDrains(id: U64, run: seq<Quiet>)
    requires run != [] && Drain.QuietRun(run) && run[0] == Tied(id)
    ensures forall n :: 0 <= n < |run| ==> run[n].Backlog() != {}
  {
    hide Tied, Drain.QuietRun;
    TieTooLarge(id);
    forall n | 0 <= n < |run| ensures run[n].Backlog() != {} {
      Drain.StuckForever(run, 7, n);
    }
  }

  // ----- Certified and yet different ---------------------------------------------------------------

  /** Two fresh nodes, 1 and 2. */
  ghost function Both(): Swarm.State
  {
    Swarm.State(map[1 := Replica(map[], 0, 0), 2 := Replica(map[], 0, 0)], {}, map[1 := {}, 2 := {}], {}, map[])
  }

  /** Empty index diffs in both directions and different live views. */
  ghost predicate Undetected(a: World, b: World)
  {
    Repair.Gap(a, b) == {} && Repair.Gap(b, a) == {} && Digest.LiveView(a) != Digest.LiveView(b)
  }

  function Written(id: U64): Rec { Rec(A, id, 1, false, [1]) }

  /** A fresh node's first write. */
  lemma FirstWrite(id: U64)
    ensures SetShared(Replica(map[], 0, 0), id, A, [1]) == Replica(map[HashName(A) := Written(id)], 1, 1)
  {
    hide HashName;
  }

  /** Both nodes write the same field before hearing of each other. */
  lemma TieReached()
    ensures var run := [Swarm.Set(1, A, [1]), Swarm.Set(2, A, [1])];
            && Swarm.Init(Both()) && Swarm.Possible(Both(), run)
            && var t := Swarm.After(Both(), run);
            1 in t.nodes && 2 in t.nodes && Undetected(t.nodes[1].world, t.nodes[2].world)
  {
    hide HashName, Undetected;
    var s0, a1, a2 := Both(), Swarm.Set(1, A, [1]), Swarm.Set(2, A, [1]);
    FirstWrite(1);
    FirstWrite(2);
    hide SetShared;
    var s1 := Swarm.Apply(s0, a1);
    assert s1.nodes == s0.nodes[1 := Replica(map[HashName(A) := Written(1)], 1, 1)];
    var s2 := Swarm.Apply(s1, a2);
    assert s2.nodes == s1.nodes[2 := Replica(map[HashName(A) := Written(2)], 1, 1)];
    TwoSteps(s0, a1, a2);
    Undetects(1);
  }

  lemma Undetects(t: U64)
    requires t + 1 < TWO_64
    ensures Undetected(map[HashName(A) := Rec(A, 1, t, false, [1])], map[HashName(A) := Rec(A, 2, t, false, [1])])
    ensures Undetected(map[HashName(A) := Rec(A, 1, t, false, [1])], map[HashName(A) := Rec(A, 2, t + 1, true, [])])
  {
    hide HashName, Repair.Gap, Digest.LiveView;
    Repair.CertifiedYetDifferent(A, [1], t);
  }

  lemma TwoSteps(s: Swarm.State, a: Swarm.Action, b: Swarm.Action)
    requires Swarm.Enabled(s, a) && Swarm.Enabled(Swarm.Apply(s, a), b)
    ensures Swarm.Possible(s, [a, b]) && Swarm.After(s, [a, b]) == Swarm.Apply(Swarm.Apply(s, a), b)
  {
    hide Swarm.Enabled, Swarm.Apply;
    var s1 := Swarm.Apply(s, a);
    var s2 := Swarm.Apply(s1, b);
    assert [a, b][1..] == [b] && [b][1..] == [];
    assert Swarm.Possible(s2, []) && Swarm.After(s2, []) == s2;
    assert Swarm.Possible(s1, [b]) && Swarm.After(s1, [b]) == s2;
  }

  /** Node 2 hears of node 1's write and deletes it; node 1 never hears of the delete. */
  lemma DeleteReached()
    ensures var frame := EncFrame(1, SHARED_OWNER, 1, 0, [Written(1)]);
            var run := [Swarm.Set(1, A, [1]), Swarm.Send(1, 1, 0, [Written(1)]), Swarm.Deliver(2, frame),
                        Swarm.Remove(2, A)];
            && Swarm.Possible(Both(), run)
            && var t := Swarm.After(Both(), run);
            1 in t.nodes && 2 in t.nodes && Undetected(t.nodes[1].world, t.nodes[2].world)
  {
    hide HashName, Undetected, EncFrame, ParseFrame, Accepted;
    var frame := EncFrame(1, SHARED_OWNER, 1, 0, [Written(1)]);
    var run := [Swarm.Set(1, A, [1]), Swarm.Send(1, 1, 0, [Written(1)]), Swarm.Deliver(2, frame), Swarm.Remove(2, A)];
    var k, r := HashName(A), Written(1);
    FirstWrite(1);
    FrameRoundTrip(2, 1, SHARED_OWNER, 1, 0, [r]);
    var s0 := Both();
    var s1 := Swarm.Apply(s0, run[0]);
    assert s1.nodes == s0.nodes[1 := Replica(map[k := r], 1, 1)];
    hide SetShared;
    assert r in s1.nodes[1].world.Values;
    var s2 := Swarm.Apply(s1, run[1]);
    assert s2.nodes == s1.nodes && frame in s2.net;
    var s3 := Swarm.Apply(s2, run[2]);
    HeardOf(r);
    assert s3.nodes == s2.nodes[2 := Replica(map[k := r], 1, 1)];
    hide MergeAll;
    FirstDelete(r);
    hide RemoveShared;
    var s4 := Swarm.Apply(s3, run[3]);
    assert s4.nodes == s3.nodes[2 := Replica(map[k := Rec(A, 2, 2, true, [])], 2, 1)];
    Swarm.RunOfFour(s0, run, s1, s2, s3, s4);
    Undetects(1);
  }

  lemma FirstDelete(r: Rec)
    requires r == Written(1)
    ensures RemoveShared(Replica(map[HashName(A) := r], 1, 1), 2, A)
         == Replica(map[HashName(A) := Rec(A, 2, 2, true, [])], 2, 1)
  {
    hide HashName;
  }

  lemma HeardOf(r: Rec)
    requires r == Written(1)
    ensures MergeAll(Replica(map[], 0, 0), [r]) == Replica(map[HashName(A) := r], 1, 1)
  {
    hide HashName;
    var q := MergeRec(Replica(map[], 0, 0), r);
    assert q == Replica(map[HashName(A) := r], 1, 1);
    assert [r][1..] == [];
    assert MergeAll(q, []) == q;
  }
}
