/** Last-writer-wins shared fields, one replica at a time: what the shared operations of
    src/state/fleece_state_manager.c do to the map a replica stores, to its logical clock and
    to its slot budget. The slot table that implements this is in Slots and Store. */
module Lww {
  import opened Bytes
  import opened Hashing
  import opened Sums

  /** FIELD_CAPACITY: slots shared by every owner's fields. */
  const CAPACITY: nat := 128

  /** One version of one field. `origin` is the node that authored it. */
  datatype Rec = Rec(name: seq<Byte>, origin: U64, ts: U64, tomb: bool, data: seq<Byte>)

  /** A stream as a replica stores it, keyed by name hash; tombstones are kept. */
  type World = map<U32, Rec>

  predicate Beats(a: Rec, b: Rec)
  {
    a.ts > b.ts || (a.ts == b.ts && a.origin > b.origin)
  }

  predicate SameVersion(a: Rec, b: Rec)
  {
    a.ts == b.ts && a.origin == b.origin
  }

  /** A record the named API can have produced and the wire can carry unchanged. */
  predicate Proper(r: Rec)
  {
    && 0 < |r.name| <= NAME_CAP
    && 0 !in r.name
    && r.tomb == (r.data == [])
    && |r.data| < TWO_32
  }

  /** What upsert_field keeps of a record: the name is cut to the slot, deletes hold no data. */
  function Stored(r: Rec): (s: Rec)
    ensures SameVersion(r, s) && s.tomb == r.tomb
    ensures Proper(r) ==> s == r
  {
    r.(name := StoredName(r.name), data := if r.tomb then [] else r.data)
  }

  /** One stream of a replica with the node-wide clock and slot count. */
  datatype Replica = Replica(world: World, clock: U64, used: nat)
  {
    predicate Room(k: U32) { k in world || used < CAPACITY }

    predicate Live(k: U32) { k in world && !world[k].tomb }
  }

  /** upsert_field, which fails without effect when a new slot is needed and none is left. */
  function Upsert(p: Replica, k: U32, r: Rec): (q: Replica)
    ensures q.clock == p.clock
  {
    if !p.Room(k) then p
    else p.(world := p.world[k := Stored(r)], used := if k in p.world then p.used else p.used + 1)
  }

  predicate Mergeable(r: Rec)
  {
    r.name != [] && (r.tomb || r.data != [])
  }

  function Max(a: U64, b: U64): U64
  {
    if a > b then a else b
  }

  /** fleece_state_manager_merge_shared */
  function MergeRec(p: Replica, r: Rec): (q: Replica)
  {
    if !Mergeable(r) then p
    else
      var k := HashName(r.name);
      var p' := p.(clock := Max(p.clock, r.ts));
      if k in p.world && !Beats(r, p.world[k]) then p' else Upsert(p', k, r)
  }

  function MergeAll(p: Replica, rs: seq<Rec>): (q: Replica)
    decreases |rs|
  {
    if rs == [] then p else MergeAll(MergeRec(p, rs[0]), rs[1..])
  }

  /** fleece_state_manager_set_shared: the clock ticks even when no slot is left. */
  function SetShared(p: Replica, id: U64, name: seq<Byte>, data: seq<Byte>): (q: Replica)
    requires p.clock + 1 < TWO_64
  {
    if name == [] || data == [] then p
    else Upsert(p.(clock := p.clock + 1), HashName(name), Rec(name, id, p.clock + 1, false, data))
  }

  /** fleece_state_manager_remove_shared: a delete is a new write by the deleter. */
  function RemoveShared(p: Replica, id: U64, name: seq<Byte>): (q: Replica)
    requires p.clock + 1 < TWO_64
  {
    var k := HashName(name);
    if !p.Live(k) then p
    else
      var r := p.world[k].(origin := id, ts := p.clock + 1, tomb := true, data := []);
      p.(clock := p.clock + 1, world := p.world[k := r])
  }

  predicate CasHolds(p: Replica, k: U32, expected: Option<seq<Byte>>)
  {
    match expected
    case None => !p.Live(k)
    case Some(e) => p.Live(k) && p.world[k].data == e
  }

  /** fleece_state_manager_set_shared_cas */
  function SetSharedCas(p: Replica, id: U64, name: seq<Byte>, expected: Option<seq<Byte>>,
                        data: seq<Byte>): (q: Replica)
    requires p.clock + 1 < TWO_64
  {
    if name == [] || data == [] || !CasHolds(p, HashName(name), expected) then p
    else SetShared(p, id, name, data)
  }

  /** What makes compare-and-set useful: once a call has replaced the expected bytes by others,
      every further call with the same expectation changes nothing. */
  lemma CasOnce(p: Replica, id: U64, name: seq<Byte>, e: seq<Byte>, data: seq<Byte>, data': seq<Byte>)
    requires p.clock + 2 < TWO_64 && data != e
    ensures var q := SetSharedCas(p, id, name, Some(e), data);
            q != p ==>
              && SetSharedCas(q, id, name, Some(e), data') == q
              && HashName(name) in p.world && p.world[HashName(name)].data == e
  {
    hide HashName;
  }

  /** And of two calls that expect nothing, the second changes nothing. */
  lemma CreateOnce(p: Replica, id: U64, name: seq<Byte>, data: seq<Byte>, data': seq<Byte>)
    requires p.clock + 2 < TWO_64
    ensures var q := SetSharedCas(p, id, name, None, data);
            q.world != p.world ==> SetSharedCas(q, id, name, None, data') == q
  {
    hide HashName;
  }

  // ----- The order on versions --------------------------------------------------

  lemma BeatsTotal(a: Rec, b: Rec)
    ensures Beats(a, b) || Beats(b, a) || SameVersion(a, b)
    ensures !(Beats(a, b) && Beats(b, a))
  {}

  // ----- The store as the top of what it has taken in ------------------------------

  /** `w` holds, for every key, a version of `seen` that no other one of `seen` beats. */
  ghost predicate IsTop(w: World, seen: set<Rec>)
  {
    && (forall k :: k in w ==> w[k] in seen && HashName(w[k].name) == k)
    && (forall r :: r in seen ==> HashName(r.name) in w && !Beats(r, w[HashName(r.name)]))
  }

  /** A version number names one write. */
  ghost predicate Coherent(seen: set<Rec>)
  {
    forall a, b :: a in seen && b in seen && SameVersion(a, b) ==> a == b
  }

  /** What a replica stores is a function of the set of versions it has taken in: arrival
      order, duplicates and relays leave no trace. */
  lemma TopUnique(w1: World, w2: World, seen: set<Rec>)
    requires IsTop(w1, seen) && IsTop(w2, seen) && Coherent(seen)
    ensures w1 == w2
  {
    forall k | k in w1 ensures k in w2 && w1[k] == w2[k] {
      BeatsTotal(w1[k], w2[k]);
    }
    forall k | k in w2 ensures k in w1 {}
  }

  /** Merging a record keeps the store at the top of what was taken in. */
  lemma MergeKeepsTop(p: Replica, seen: set<Rec>, r: Rec)
    requires IsTop(p.world, seen) && Proper(r)
    ensures p.Room(HashName(r.name)) ==> IsTop(MergeRec(p, r).world, seen + {r})
    ensures !p.Room(HashName(r.name)) ==> MergeRec(p, r).world == p.world
  {
    var w, w' := p.world, MergeRec(p, r).world;
    var k := HashName(r.name);
    if p.Room(k) && w' != w {
      assert w' == w[k := r];
      forall x | x in seen + {r} ensures HashName(x.name) in w' && !Beats(x, w'[HashName(x.name)]) {
        if HashName(x.name) == k && x in seen {
          assert !Beats(x, w[k]);
        }
      }
    }
  }

  /** The records of `rs` that reach the slot table, in order (a new key needs a free slot). */
  function Accepted(p: Replica, rs: seq<Rec>): (s: set<Rec>)
    decreases |rs|
  {
    if rs == [] then {}
    else (if p.Room(HashName(rs[0].name)) then {rs[0]} else {}) + Accepted(MergeRec(p, rs[0]), rs[1..])
  }

  lemma {:induction false} AcceptedSubset(p: Replica, rs: seq<Rec>)
    ensures forall r :: r in Accepted(p, rs) ==> r in rs
    decreases |rs|
  {
    if rs != [] {
      AcceptedSubset(MergeRec(p, rs[0]), rs[1..]);
    }
  }

  lemma {:induction false} MergeAllKeepsTop(p: Replica, seen: set<Rec>, rs: seq<Rec>)
    requires IsTop(p.world, seen)
    requires forall r :: r in rs ==> Proper(r)
    ensures IsTop(MergeAll(p, rs).world, seen + Accepted(p, rs))
    decreases |rs|
  {
    hide HashName;
    if rs == [] {
      assert seen + Accepted(p, rs) == seen;
    } else {
      assert rs[0] in rs;
      MergeKeepsTop(p, seen, rs[0]);
      var seen' := seen + (if p.Room(HashName(rs[0].name)) then {rs[0]} else {});
      MergeAllKeepsTop(MergeRec(p, rs[0]), seen', rs[1..]);
      assert seen + Accepted(p, rs) == seen' + Accepted(MergeRec(p, rs[0]), rs[1..]);
    }
  }

  /** A slot is left for every key of `keys` the replica does not store yet. */
  ghost predicate RoomFor(p: Replica, keys: set<U32>)
  {
    p.used + |keys - p.world.Keys| <= CAPACITY
  }

  lemma MergeKeys(p: Replica, r: Rec)
    requires Proper(r) && p.Room(HashName(r.name))
    ensures var q := MergeRec(p, r);
            && q.world.Keys == p.world.Keys + {HashName(r.name)}
            && q.used == if HashName(r.name) in p.world then p.used else p.used + 1
  {
    hide HashName;
  }

  lemma RoomKept(p: Replica, r: Rec, keys: set<U32>)
    requires Proper(r) && HashName(r.name) in keys && RoomFor(p, keys)
    ensures p.Room(HashName(r.name)) && RoomFor(MergeRec(p, r), keys)
  {
    hide HashName, MergeRec;
    var k := HashName(r.name);
    var need := keys - p.world.Keys;
    if k !in p.world {
      SubsetSize({k}, need);
    }
    MergeKeys(p, r);
    assert keys - MergeRec(p, r).world.Keys == need - {k};
    SubsetSize(need - {k}, need);
  }

  /** With a slot for every new key, every record is accepted. */
  lemma {:induction false} AllAccepted(p: Replica, rs: seq<Rec>, keys: set<U32>)
    requires forall r :: r in rs ==> Proper(r) && HashName(r.name) in keys
    requires RoomFor(p, keys)
    ensures Accepted(p, rs) == (set r | r in rs) && RoomFor(MergeAll(p, rs), keys)
    decreases |rs|
  {
    hide HashName, RoomFor, MergeRec;
    if rs != [] {
      assert rs[0] in rs;
      RoomKept(p, rs[0], keys);
      AllAccepted(MergeRec(p, rs[0]), rs[1..], keys);
      assert rs == [rs[0]] + rs[1..];
    }
  }

  /** Every accepted record is outdone or stored. */
  lemma MergedAtLeast(p: Replica, rs: seq<Rec>, keys: set<U32>, r: Rec)
    requires Keyed(p.world) && RoomFor(p, keys) && r in rs
    requires forall x :: x in rs ==> Proper(x) && HashName(x.name) in keys
    ensures var w := MergeAll(p, rs).world;
            HashName(r.name) in w && !Beats(r, w[HashName(r.name)])
  {
    hide HashName, RoomFor, Accepted, MergeAll;
    WorldIsTopOfItself(p.world);
    MergeAllKeepsTop(p, p.world.Values, rs);
    AllAccepted(p, rs, keys);
  }

  // ----- Versions only grow --------------------------------------------------------

  /** Every key of `w` is still in `w'`, with the same record or a newer version. */
  ghost predicate Grows(w: World, w': World)
  {
    forall k :: k in w ==> k in w' && (w'[k] == w[k] || Beats(w'[k], w[k]))
  }

  lemma GrowsReflexive(w: World)
    ensures Grows(w, w)
  {}

  lemma GrowsTransitive(a: World, b: World, c: World)
    requires Grows(a, b) && Grows(b, c)
    ensures Grows(a, c)
  {
    forall k | k in a ensures k in c && (c[k] == a[k] || Beats(c[k], a[k])) {
      assert k in b;
    }
  }

  lemma {:induction false} MergeAllGrows(p: Replica, rs: seq<Rec>)
    ensures Grows(p.world, MergeAll(p, rs).world)
    ensures p.clock <= MergeAll(p, rs).clock
    decreases |rs|
  {
    if rs != [] {
      var q := MergeRec(p, rs[0]);
      assert Grows(p.world, q.world);
      MergeAllGrows(q, rs[1..]);
      GrowsTransitive(p.world, q.world, MergeAll(p, rs).world);
    }
  }

  /** Every stored timestamp is at most the local clock. */
  ghost predicate ClockBounds(p: Replica)
  {
    forall k :: k in p.world ==> p.world[k].ts <= p.clock
  }

  lemma {:induction false} MergeAllClock(p: Replica, rs: seq<Rec>)
    requires ClockBounds(p)
    ensures ClockBounds(MergeAll(p, rs))
    decreases |rs|
  {
    if rs != [] {
      MergeAllClock(MergeRec(p, rs[0]), rs[1..]);
    }
  }

  lemma {:induction false} AcceptedClock(p: Replica, rs: seq<Rec>)
    requires forall r :: r in rs ==> Proper(r)
    ensures forall r :: r in Accepted(p, rs) ==> r.ts <= MergeAll(p, rs).clock
    decreases |rs|
  {
    if rs != [] {
      assert rs[0] in rs;
      var q := MergeRec(p, rs[0]);
      assert rs[0].ts <= q.clock;
      MergeAllGrows(q, rs[1..]);
      AcceptedClock(q, rs[1..]);
    }
  }

  /** A local write beats everything the replica has taken in, and a delete does too. */
  lemma LocalWriteBeats(p: Replica, id: U64, name: seq<Byte>, data: seq<Byte>)
    requires p.clock + 1 < TWO_64 && ClockBounds(p)
    ensures Grows(p.world, SetShared(p, id, name, data).world) && ClockBounds(SetShared(p, id, name, data))
    ensures Grows(p.world, RemoveShared(p, id, name).world) && ClockBounds(RemoveShared(p, id, name))
  {}

  // ----- Join ------------------------------------------------------------------------

  /** The pointwise (timestamp, origin) maximum. */
  ghost function Join(a: World, b: World): World
  {
    map k | k in a.Keys + b.Keys ::
      if k !in b then a[k] else if k !in a then b[k] else if Beats(b[k], a[k]) then b[k] else a[k]
  }

  ghost predicate Keyed(w: World)
  {
    forall k :: k in w ==> HashName(w[k].name) == k
  }

  lemma WorldIsTopOfItself(w: World)
    requires Keyed(w)
    ensures IsTop(w, w.Values)
  {
    forall r | r in w.Values ensures HashName(r.name) in w && !Beats(r, w[HashName(r.name)]) {
      var k :| k in w && w[k] == r;
    }
  }

  lemma JoinIsTop(a: World, b: World)
    requires Keyed(a) && Keyed(b)
    ensures IsTop(Join(a, b), a.Values + b.Values)
  {
    hide HashName;
    var j := Join(a, b);
    WorldIsTopOfItself(a);
    WorldIsTopOfItself(b);
    forall k | k in j ensures j[k] in a.Values + b.Values && HashName(j[k].name) == k {
      assert k in a ==> a[k] in a.Values;
      assert k in b ==> b[k] in b.Values;
    }
    forall r | r in a.Values + b.Values ensures HashName(r.name) in j && !Beats(r, j[HashName(r.name)]) {
      var k := HashName(r.name);
      assert r in a.Values ==> k in a && !Beats(r, a[k]);
      assert r in b.Values ==> k in b && !Beats(r, b[k]);
    }
  }

  /** Merging every record of `b` into a replica holding `a` gives their join, whatever the
      order and however often each record arrives. */
  lemma MergeAllIsJoin(p: Replica, b: World, rs: seq<Rec>)
    requires Keyed(p.world) && Keyed(b)
    requires forall r :: r in rs <==> r in b.Values
    requires forall k :: k in b ==> Proper(b[k])
    requires RoomFor(p, b.Keys)
    requires Coherent(p.world.Values + b.Values)
    ensures MergeAll(p, rs).world == Join(p.world, b)
  {
    hide HashName, RoomFor, Accepted, MergeAll, Join, Coherent, Keyed, IsTop, Proper;
    ExportedKeys(b, rs);
    WorldIsTopOfItself(p.world);
    MergeAllKeepsTop(p, p.world.Values, rs);
    AllAccepted(p, rs, b.Keys);
    assert Accepted(p, rs) == b.Values;
    JoinIsTop(p.world, b);
    TopUnique(MergeAll(p, rs).world, Join(p.world, b), p.world.Values + b.Values);
  }

  lemma ExportedKeys(b: World, rs: seq<Rec>)
    requires Keyed(b) && (forall r :: r in rs <==> r in b.Values) && forall k :: k in b ==> Proper(b[k])
    ensures forall r :: r in rs ==> Proper(r) && HashName(r.name) in b.Keys
  {
    hide HashName;
    forall r | r in rs ensures Proper(r) && HashName(r.name) in b.Keys {
      assert r in b.Values;
    }
  }

  lemma JoinAssociates(a: World, b: World, c: World)
    ensures Join(Join(a, b), c) == Join(a, Join(b, c))
  {
    var l, r := Join(Join(a, b), c), Join(a, Join(b, c));
    forall k | k in a.Keys + b.Keys + c.Keys ensures k in l && k in r && l[k] == r[k] {
      assert k in a.Keys + b.Keys <==> k in Join(a, b);
      assert k in b.Keys + c.Keys <==> k in Join(b, c);
    }
  }

  /** Join is a semilattice on coherent worlds. */
  lemma JoinLaws(a: World, b: World, c: World)
    ensures Join(a, a) == a
    ensures Coherent(a.Values + b.Values) ==> Join(a, b) == Join(b, a)
    ensures Join(Join(a, b), c) == Join(a, Join(b, c))
  {
    JoinAssociates(a, b, c);
    if Coherent(a.Values + b.Values) {
      forall k | k in a && k in b ensures Join(a, b)[k] == Join(b, a)[k] {
        assert a[k] in a.Values && b[k] in b.Values;
        BeatsTotal(a[k], b[k]);
      }
      assert Join(a, b) == Join(b, a);
    }
  }
}
