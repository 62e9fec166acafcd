/** One node's delta gossip over whole runs: local writes, deletes, merges and private fields
    interleaved with bounded exports whose watermark the runtime feeds back. */
module GossipRun {
  import opened Bytes
  import opened Hashing
  import opened Lww
  import opened Wire
  import opened Slots
  import opened SlotMaps
  import opened Bounded

  /** `due` and `sent` are history: the versions written here or merged while above the
      watermark, and the records carried in a frame handed to the transport. */
  datatype State = State(t: Table, wm: U64, due: set<Rec>, sent: set<Rec>)

  datatype Action =
    | Write(name: seq<Byte>, data: seq<Byte>)
    | Delete(name: seq<Byte>)
    | Arrive(r: Rec)
    | Private(key: U32, title: Option<seq<Byte>>, data: seq<Byte>)
    | Forget(key: U32)
    | ArriveNode(owner: U64, r: Rec)
    | Compaction
    | Gossip(order: seq<nat>, k: nat)

  /** A node's frame header budget and frame cap. */
  datatype Config = Config(base: nat, cap: nat)

  ghost predicate Enabled(c: Config, g: State, a: Action)
  {
    && g.t.count <= |g.t.slots| && g.t.clock + 1 < NONE_LEFT
    && match a
       case Write(name, data) => 0 < |name| <= NAME_CAP && 0 !in name && 0 < |data| < TWO_32
       case Delete(name) => |name| <= NAME_CAP && 0 !in name
       case Arrive(r) => Proper(r) && r.ts < NONE_LEFT
       case Private(key, name, data) =>
         0 < |data| < TWO_32 && (name.Some? ==> name.value != [] && 0 !in name.value)
       case Forget(key) => true
       case ArriveNode(owner, r) =>   // a frame of the node's own stream is refused
         && owner != SHARED_OWNER && owner != g.t.id && r.origin == owner
         && 0 !in r.name && |r.data| < TWO_32 && r.ts < NONE_LEFT
       case Compaction => true
       case Gossip(order, k) =>   // the runtime exports only when count_new_shared is positive
         && Sized(g.t.slots) && order != [] && Order(g.t.slots, g.wm, order)
         && Window(g.t.slots, order, c.base, c.cap, k)
  }

  /** The version an action makes due: what a write or delete authors, and a record that finds
      a slot and arrives above the watermark. */
  ghost function NewlyDue(g: State, a: Action): set<Rec>
    requires g.t.clock + 1 < TWO_64
  {
    var p := StreamOf(g.t, SHARED_OWNER);
    match a
    case Write(name, data) =>
      if p.Room(HashName(name)) then {Rec(name, g.t.id, g.t.clock + 1, false, data)} else {}
    case Delete(name) =>
      if p.Live(HashName(name)) then {Rec(p.world[HashName(name)].name, g.t.id, g.t.clock + 1, true, [])} else {}
    case Arrive(r) =>
      if r.ts > g.wm && p.Room(HashName(r.name)) then {r} else {}
    case _ => {}
  }

  ghost function CarriedRecs(s: seq<Slot>, order: seq<nat>, k: nat): set<Rec>
    requires k <= |order| && forall e :: 0 <= e < |order| ==> order[e] < |s|
  {
    set e | 0 <= e < k :: RecOf(s[order[e]])
  }

  ghost function Apply(c: Config, g: State, a: Action): State
    requires Enabled(c, g, a)
  {
    var g' := g.(due := g.due + NewlyDue(g, a));
    match a
    case Write(name, data) => g'.(t := WriteLocal(g.t, HashName(name), SHARED_OWNER, g.t.id, Some(name), data))
    case Delete(name) => g'.(t := Bury(g.t, HashName(name), SHARED_OWNER, Some(g.t.id)))
    case Arrive(r) => g'.(t := Merge(g.t, SHARED_OWNER, r))
    case Private(key, name, data) => g'.(t := WriteLocal(g.t, key, g.t.id, g.t.id, name, data))
    case Forget(key) => g'.(t := Bury(g.t, key, g.t.id, None))
    case ArriveNode(owner, r) => g'.(t := Merge(g.t, owner, r))
    case Compaction => g'.(t := Compact(g.t))
    case Gossip(order, k) =>
      g'.(t := g.t.(slots := Mark(g.t.slots, Carried(order, k), g.t.clock)),
          wm := WatermarkOf(g.t.slots, order, k),
          sent := g.sent + CarriedRecs(g.t.slots, order, k))
  }

  // ----- The invariant -----------------------------------------------------------------------

  /** A due version is stored or outdone. */
  ghost predicate DueOk(p: Replica, due: set<Rec>)
  {
    forall r :: r in due ==>
      Proper(r) && r.ts <= p.clock && HashName(r.name) in p.world && !Beats(r, p.world[HashName(r.name)])
  }

  /** Every due version still stored was carried or is above the watermark. */
  ghost predicate NothingSkipped(w: World, due: set<Rec>, sent: set<Rec>, wm: U64)
  {
    forall k :: k in w && w[k] in due ==> w[k] in sent || w[k].ts > wm
  }

  ghost predicate Inv(g: State)
  {
    var p := StreamOf(g.t, SHARED_OWNER);
    && Slots.Valid(g.t) && Keyed(p.world) && g.wm <= g.t.clock
    && DueOk(p, g.due) && NothingSkipped(p.world, g.due, g.sent, g.wm)
  }

  /** A fresh manager satisfies the invariant. */
  lemma FreshInv(id: U64)
    requires id != SHARED_OWNER
    ensures Inv(State(EmptyTable(id), 0, {}, {}))
  {
    assert KeysOf(EmptyTable(id).slots, SHARED_OWNER) == {};
  }

  // ----- Steps on the replica ---------------------------------------------------------------------

  /** One write at the top of the clock. */
  lemma NewTop(p: Replica, q: Replica, g: State, k: U32, r: Rec)
    requires Keyed(p.world) && DueOk(p, g.due) && NothingSkipped(p.world, g.due, g.sent, g.wm) && g.wm <= p.clock
    requires Proper(r) && r.ts == p.clock + 1 == q.clock && HashName(r.name) == k
    requires q.world == p.world[k := r]
    requires ClockBounds(p)
    ensures Keyed(q.world) && DueOk(q, g.due + {r})
    ensures NothingSkipped(q.world, g.due + {r}, g.sent, g.wm)
  {
    hide HashName;
  }

  /** The clock may tick and slots may be taken without touching the shared map. */
  lemma Unchanged(p: Replica, q: Replica, g: State, g': State)
    requires DueOk(p, g.due) && NothingSkipped(p.world, g.due, g.sent, g.wm) && q.world == p.world && q.clock >= p.clock
    requires g'.due == g.due && g'.sent == g.sent && g'.wm == g.wm
    ensures DueOk(q, g'.due) && NothingSkipped(q.world, g'.due, g'.sent, g'.wm)
  {
    hide HashName;
  }

  lemma KeyedName(w: World, k: U32)
    requires Keyed(w) && k in w
    ensures HashName(w[k].name) == k
  {}

  lemma ValidBounds(t: Table)
    requires Slots.Valid(t)
    ensures Tidy(t)
    ensures ClockBounds(StreamOf(t, SHARED_OWNER))
    ensures forall k :: k in View(t.slots, SHARED_OWNER) ==>
              var r := View(t.slots, SHARED_OWNER)[k]; 0 < |r.name| <= NAME_CAP && 0 !in r.name
  {
    forall k | k in View(t.slots, SHARED_OWNER)
      ensures var r := View(t.slots, SHARED_OWNER)[k]; r.ts <= t.clock && 0 < |r.name| <= NAME_CAP && 0 !in r.name
    {
      ViewHas(t.slots, k, SHARED_OWNER);
      assert SlotOk(t.slots[Find(t.slots, k, SHARED_OWNER)], t.id, t.clock);
    }
  }

  lemma WriteKeeps(c: Config, g: State, name: seq<Byte>, data: seq<Byte>)
    requires Inv(g) && Enabled(c, g, Write(name, data))
    ensures Inv(Apply(c, g, Write(name, data)))
  {
    hide HashName, Slots.Valid, WriteLocal, View, Tidy, Packed, NothingSkipped, DueOk, Keyed, ClockBounds;
    var g' := Apply(c, g, Write(name, data));
    var p, q := StreamOf(g.t, SHARED_OWNER), StreamOf(g'.t, SHARED_OWNER);
    ValidBounds(g.t);
    WriteLocalValid(g.t, HashName(name), SHARED_OWNER, g.t.id, Some(name), data);
    SetSharedRefines(g.t, g.t.id, name, data);
    if p.Room(HashName(name)) {
      NewTop(p, q, g, HashName(name), Rec(name, g.t.id, g.t.clock + 1, false, data));
    } else {
      Unchanged(p, q, g, g');
    }
  }

  lemma DeleteKeeps(c: Config, g: State, name: seq<Byte>)
    requires Inv(g) && Enabled(c, g, Delete(name))
    ensures Inv(Apply(c, g, Delete(name)))
  {
    hide HashName, Slots.Valid, Bury, View, Tidy, Packed, NothingSkipped, DueOk, Keyed, ClockBounds;
    var g' := Apply(c, g, Delete(name));
    var p, q := StreamOf(g.t, SHARED_OWNER), StreamOf(g'.t, SHARED_OWNER);
    ValidBounds(g.t);
    BuryValid(g.t, HashName(name), SHARED_OWNER, Some(g.t.id));
    BuryRefines(g.t, HashName(name), SHARED_OWNER, Some(g.t.id));
    if p.Live(HashName(name)) {
      KeyedName(p.world, HashName(name));
      NewTop(p, q, g, HashName(name), Rec(p.world[HashName(name)].name, g.t.id, g.t.clock + 1, true, []));
    } else {
      Unchanged(p, q, g, g');
    }
  }

  /** A merge keeps the bookkeeping, the arriving record being due or not. */
  lemma MergeKeepsDue(p: Replica, g: State, r: Rec)
    requires Keyed(p.world) && DueOk(p, g.due) && NothingSkipped(p.world, g.due, g.sent, g.wm) && Proper(r)
    ensures var q := MergeRec(p, r);
            var due' := g.due + if r.ts > g.wm && p.Room(HashName(r.name)) then {r} else {};
            Keyed(q.world) && DueOk(q, due') && NothingSkipped(q.world, due', g.sent, g.wm)
  {
    hide HashName;
    var q, k := MergeRec(p, r), HashName(r.name);
    assert q.world == p.world || q.world == p.world[k := r];
    assert p.Room(k) ==> k in q.world && !Beats(r, q.world[k]);
    assert forall x :: x in g.due && HashName(x.name) == k ==> !Beats(x, q.world[k]);
    hide MergeRec;
  }

  lemma ArriveKeeps(c: Config, g: State, r: Rec)
    requires Inv(g) && Enabled(c, g, Arrive(r))
    ensures Inv(Apply(c, g, Arrive(r)))
  {
    hide HashName, Slots.Valid, Merge, View, Tidy, Packed, NothingSkipped, DueOk, Keyed, ClockBounds;
    var g' := Apply(c, g, Arrive(r));
    ValidBounds(g.t);
    MergeValid(g.t, SHARED_OWNER, r);
    MergeRefines(g.t, SHARED_OWNER, r);
    MergeKeepsDue(StreamOf(g.t, SHARED_OWNER), g, r);
    MergeAllGrows(StreamOf(g.t, SHARED_OWNER), [r]);
    assert StreamOf(g'.t, SHARED_OWNER).clock >= g.t.clock;
  }

  lemma PrivateKeeps(c: Config, g: State, key: U32, name: Option<seq<Byte>>, data: seq<Byte>)
    requires Inv(g) && Enabled(c, g, Private(key, name, data))
    ensures Inv(Apply(c, g, Private(key, name, data)))
  {
    hide HashName, Slots.Valid, WriteLocal, View, Tidy, Packed, NothingSkipped, DueOk, Keyed, ClockBounds;
    var g' := Apply(c, g, Private(key, name, data));
    ValidBounds(g.t);
    WriteLocalValid(g.t, key, g.t.id, g.t.id, name, data);
    PrivateElsewhere(g.t, key, name, data);
    Unchanged(StreamOf(g.t, SHARED_OWNER), StreamOf(g'.t, SHARED_OWNER), g, g');
  }

  /** Deletes of private fields, merges into other nodes' streams and compaction leave the
      shared map alone. */
  lemma OthersKeep(c: Config, g: State, a: Action)
    requires Inv(g) && Enabled(c, g, a) && (a.Forget? || a.ArriveNode? || a.Compaction?)
    ensures Inv(Apply(c, g, a))
  {
    hide HashName, Slots.Valid, Bury, Merge, Compact, View, Tidy, Packed, NothingSkipped, DueOk, Keyed, ClockBounds;
    var g' := Apply(c, g, a);
    ValidBounds(g.t);
    match a {
      case Forget(key) =>
        BuryValid(g.t, key, g.t.id, None);
        BuryRefines(g.t, key, g.t.id, None);
        assert StreamOf(g'.t, g.t.id).clock >= g.t.clock;
      case ArriveNode(owner, r) =>
        MergeValid(g.t, owner, r);
        MergeRefines(g.t, owner, r);
        assert StreamOf(g'.t, owner).clock >= g.t.clock;
      case Compaction =>
        CompactValid(g.t);
        CompactShared(g.t);
        CompactClock(g.t);
    }
    Unchanged(StreamOf(g.t, SHARED_OWNER), StreamOf(g'.t, SHARED_OWNER), g, g');
  }

  lemma CompactClock(t: Table)
    ensures Compact(t).clock == t.clock
  {}

  lemma PrivateElsewhere(t: Table, key: U32, name: Option<seq<Byte>>, data: seq<Byte>)
    requires Tidy(t) && t.clock + 1 < TWO_64
    ensures var t' := WriteLocal(t, key, t.id, t.id, name, data);
            View(t'.slots, SHARED_OWNER) == View(t.slots, SHARED_OWNER) && t'.clock == t.clock + 1
  {
    hide View, Slots.Upsert;
    var t1 := t.(clock := t.clock + 1);
    if StreamOf(t1, t.id).Room(key) {
      UpsertMaps(t1, key, t.id, t.id, name, data, t1.clock, false);
    } else {
      UpsertRefines(t1, key, t.id, t.id, name, data, t1.clock, false);
    }
  }

  lemma MarkKeepsValid(t: Table, carried: set<nat>)
    requires Slots.Valid(t) && forall i :: i in carried ==> i < |t.slots| && t.slots[i].used
    ensures Slots.Valid(t.(slots := Mark(t.slots, carried, t.clock)))
  {}

  lemma GossipKeeps(c: Config, g: State, order: seq<nat>, k: nat)
    requires Inv(g) && Enabled(c, g, Gossip(order, k))
    ensures Inv(Apply(c, g, Gossip(order, k))) && g.wm <= Apply(c, g, Gossip(order, k)).wm
  {
    hide HashName, View, Mark, WatermarkOf, Load, Keyed, DueOk;
    var g' := Apply(c, g, Gossip(order, k));
    var s := g.t.slots;
    ExportSafe(s, g.t.clock, g.wm, order, k);
    NoTops(s, g.t.clock, g.wm, order, k);
    MarkKeepsView(s, Carried(order, k), g.t.clock);
    MarkKeepsValid(g.t, Carried(order, k));
    assert g'.due == g.due;
    hide Slots.Valid, Order;
    var w := View(s, SHARED_OWNER);
    forall x | x in w && w[x] in g.due ensures w[x] in g'.sent || w[x].ts > g'.wm {
      ViewHas(s, x, SHARED_OWNER);
      CarriedOrAbove(g, order, k, Find(s, x, SHARED_OWNER));
    }
  }

  lemma CarriedOrAbove(g: State, order: seq<nat>, k: nat, i: nat)
    requires k <= |order| && forall e :: 0 <= e < |order| ==> order[e] < |g.t.slots| && g.t.slots[order[e]].ts > 0
    requires i < |g.t.slots| && g.t.slots[i].used && g.t.slots[i].owner == SHARED_OWNER && g.t.slots[i].name != []
    requires g.t.slots[i].ts > g.wm ==>
               i in Carried(order, k) || i in EligibleSet(g.t.slots, WatermarkOf(g.t.slots, order, k))
    ensures g.t.slots[i].ts <= g.wm || RecOf(g.t.slots[i]) in CarriedRecs(g.t.slots, order, k)
            || g.t.slots[i].ts > WatermarkOf(g.t.slots, order, k)
  {}

  lemma StepKeeps(c: Config, g: State, a: Action)
    requires Inv(g) && Enabled(c, g, a)
    ensures Inv(Apply(c, g, a)) && g.wm <= Apply(c, g, a).wm
  {
    match a
    case Write(name, data) => WriteKeeps(c, g, name, data);
    case Delete(name) => DeleteKeeps(c, g, name);
    case Arrive(r) => ArriveKeeps(c, g, r);
    case Private(key, name, data) => PrivateKeeps(c, g, key, name, data);
    case Gossip(order, k) => GossipKeeps(c, g, order, k);
    case _ => OthersKeep(c, g, a);
  }

  // ----- Runs ----------------------------------------------------------------------------------

  ghost predicate Possible(c: Config, g: State, run: seq<Action>)
    decreases |run|
  {
    run == [] || (Enabled(c, g, run[0]) && Possible(c, Apply(c, g, run[0]), run[1..]))
  }

  ghost function After(c: Config, g: State, run: seq<Action>): State
    requires Possible(c, g, run)
    decreases |run|
  {
    if run == [] then g else After(c, Apply(c, g, run[0]), run[1..])
  }

  /** The bounded exporter loses nothing over whole runs: the watermark never decreases and
      never exceeds the clock, and every version written here, or merged above the watermark,
      that is still stored has been carried in a frame or lies above the watermark. */
  lemma {:induction false} NothingLost(c: Config, g: State, run: seq<Action>)
    requires Inv(g) && Possible(c, g, run)
    ensures var h := After(c, g, run);
            && g.wm <= h.wm <= h.t.clock && g.due <= h.due
            && NothingSkipped(View(h.t.slots, SHARED_OWNER), h.due, h.sent, h.wm) && Inv(h)
    decreases |run|
  {
    hide Enabled, NothingSkipped, DueOk, Slots.Valid, Keyed, NewlyDue;
    if run != [] {
      StepKeeps(c, g, run[0]);
      assert g.due <= Apply(c, g, run[0]).due;
      hide Apply;
      NothingLost(c, Apply(c, g, run[0]), run[1..]);
    }
  }

  /** Over every run, compaction of a table with raw-key fields included, no shared version is
      ever replaced by one it does not lose to. */
  lemma {:induction false} VersionsGrow(c: Config, g: State, run: seq<Action>)
    requires Inv(g) && Possible(c, g, run)
    ensures Grows(View(g.t.slots, SHARED_OWNER), View(After(c, g, run).t.slots, SHARED_OWNER))
    decreases |run|
  {
    hide Inv, Enabled, Apply, View, Grows;
    if run == [] {
      GrowsReflexive(View(g.t.slots, SHARED_OWNER));
    } else {
      var g1 := Apply(c, g, run[0]);
      StepKeeps(c, g, run[0]);
      StepGrows(c, g, run[0]);
      VersionsGrow(c, g1, run[1..]);
      GrowsTransitive(View(g.t.slots, SHARED_OWNER), View(g1.t.slots, SHARED_OWNER),
                      View(After(c, g1, run[1..]).t.slots, SHARED_OWNER));
    }
  }

  lemma StepGrows(c: Config, g: State, a: Action)
    requires Inv(g) && Enabled(c, g, a)
    ensures Grows(View(g.t.slots, SHARED_OWNER), View(Apply(c, g, a).t.slots, SHARED_OWNER))
  {
    hide HashName, Slots.Valid, WriteLocal, Bury, Merge, Compact, Mark, View, Tidy, Packed, NothingSkipped, DueOk,
         Keyed, ClockBounds, Grows, Order, Load, Lww.SetShared, Lww.RemoveShared, MergeRec;
    var p := StreamOf(g.t, SHARED_OWNER);
    ValidBounds(g.t);
    GrowsReflexive(p.world);
    match a
    case Write(name, data) =>
      SetSharedRefines(g.t, g.t.id, name, data);
      LocalWriteBeats(p, g.t.id, name, data);
    case Delete(name) =>
      RemoveSharedRefines(g.t, g.t.id, name);
      LocalWriteBeats(p, g.t.id, name, []);
    case Arrive(r) =>
      MergeRefines(g.t, SHARED_OWNER, r);
      MergeAllGrows(p, [r]);
      assert MergeAll(p, [r]) == MergeRec(p, r);
    case Private(key, name, data) => PrivateElsewhere(g.t, key, name, data);
    case Forget(key) => BuryRefines(g.t, key, g.t.id, None);
    case ArriveNode(owner, r) => MergeRefines(g.t, owner, r);
    case Compaction => CompactShared(g.t);
    case Gossip(order, k) => MarkKeepsView(g.t.slots, Carried(order, k), g.t.clock);
  }

  /** What the watermark has passed is never carried again. */
  lemma {:induction false} NeverBelowWatermark(c: Config, g: State, run: seq<Action>, r: Rec)
    requires Inv(g) && Possible(c, g, run) && r.ts <= g.wm
    ensures r in After(c, g, run).sent ==> r in g.sent
    decreases |run|
  {
    if run != [] {
      StepKeeps(c, g, run[0]);
      var g1 := Apply(c, g, run[0]);
      assert r in g1.sent ==> r in g.sent;
      hide Enabled, Apply, Inv;
      NeverBelowWatermark(c, g1, run[1..], r);
    }
  }

  ghost predicate Stores(g: State, r: Rec)
  {
    var w := View(g.t.slots, SHARED_OWNER);
    HashName(r.name) in w && w[HashName(r.name)] == r
  }

  /** Relaying by delta gossip, exactly: in every later state that still stores a record which
      found a slot and was not sent before, it has been carried or is waiting above the
      watermark if and only if it arrived above the watermark. */
  lemma RelayedIff(c: Config, g: State, r: Rec, run: seq<Action>)
    requires Inv(g) && Enabled(c, g, Arrive(r)) && r !in g.sent
    requires StreamOf(g.t, SHARED_OWNER).Room(HashName(r.name))
    requires Possible(c, Apply(c, g, Arrive(r)), run) && Stores(After(c, Apply(c, g, Arrive(r)), run), r)
    ensures var h := After(c, Apply(c, g, Arrive(r)), run);
            (r in h.sent || r.ts > h.wm) <==> r.ts > g.wm
    ensures r.ts <= g.wm ==> r !in After(c, Apply(c, g, Arrive(r)), run).sent
  {
    hide HashName, Inv, Enabled, After, Possible, View;
    var g1 := Apply(c, g, Arrive(r));
    StepKeeps(c, g, Arrive(r));
    assert g1.wm == g.wm && g1.sent == g.sent && (r.ts > g.wm ==> r in g1.due);
    hide Apply;
    NothingLost(c, g1, run);
    if r.ts <= g.wm {
      NeverBelowWatermark(c, g1, run, r);
    }
  }
}
