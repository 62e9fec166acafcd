/** The slot table refines one map per owner: every operation of Slots keeps the table
    well-formed and acts on the owner's map as Lww says, with compaction as the one operation
    that needs a condition. */
module SlotMaps {
  import opened Bytes
  import opened Hashing
  import opened Lww
  import opened Slots

  // ----- Upsert ------------------------------------------------------------------------

  /** Where upsert_field writes, when it does. */
  function Target(t: Table, key: U32, owner: U64): nat
  {
    var i := Find(t.slots, key, owner);
    if i < |t.slots| then i else t.count
  }

  /** `w'` is `w`, possibly with fields missing. */
  ghost predicate OnlyLoses(w: World, w': World)
  {
    forall k :: k in w' ==> k in w && w'[k] == w[k]
  }

  /** Work on the map of `owner` leaves every other map alone. Only a field of the node itself
      can be lost to a new slot, and only from a table that compaction left unpacked. */
  ghost predicate SameElsewhere(t: Table, t': Table, owner: U64)
  {
    && t'.id == t.id
    && (forall o :: o != owner && o != t.id ==> View(t'.slots, o) == View(t.slots, o))
    && (owner != t.id ==> OnlyLoses(View(t.slots, t.id), View(t'.slots, t.id)))
    && (Packed(t) ==> Packed(t') && forall o :: o != owner ==> View(t'.slots, o) == View(t.slots, o))
  }

  /** Upsert keeps the table tidy, fails exactly when a new key finds no slot, and otherwise
      writes one slot: it replaces what that slot held and touches no other field. */
  lemma UpsertRefines(t: Table, key: U32, owner: U64, origin: U64, name: Option<seq<Byte>>, data: seq<Byte>, ts: U64,
                      tomb: bool)
    requires Tidy(t)
    ensures var r := Slots.Upsert(t, key, owner, origin, name, data, ts, tomb);
            && (r.None? <==> !StreamOf(t, owner).Room(key))
            && (r.Some? ==>
                  && Tidy(r.value) && r.value.clock == t.clock && r.value.id == t.id && (Packed(t) ==> Packed(r.value))
                  && Target(t, key, owner) < |t.slots|
                  && var i := Target(t, key, owner);
                  && var sl := r.value.slots[i];
                  && r.value.slots == t.slots[i := sl]
                  && Holds(sl, key, owner) && sl.lastExport == t.slots[i].lastExport
                  && (name.Some? ==> RecOf(sl) == Stored(Rec(name.value, origin, ts, tomb, data)))
                  && (t.slots[i].used && !Holds(t.slots[i], key, owner) ==> t.slots[i].owner == t.id && !Packed(t))
                  && (forall o :: View(r.value.slots, o) == Put(View(t.slots, o), t.slots[i], sl, o))
                  && r.value.count == if key in View(t.slots, owner) then t.count else t.count + 1)
  {
    hide View, Tidy, Packed, Put, Unique, Find;
    UpsertSlot(t, key, owner, origin, name, data, ts, tomb);
    ViewHas(t.slots, key, owner);
    var r := Slots.Upsert(t, key, owner, origin, name, data, ts, tomb);
    if r.Some? {
      hide Slots.Upsert;
      PutSlot(t.slots, Target(t, key, owner), r.value.slots[Target(t, key, owner)]);
    }
  }

  lemma UpsertSlot(t: Table, key: U32, owner: U64, origin: U64, name: Option<seq<Byte>>, data: seq<Byte>, ts: U64,
                   tomb: bool)
    requires Tidy(t)
    ensures |t.slots| == CAPACITY && t.count <= CAPACITY
    ensures var r := Slots.Upsert(t, key, owner, origin, name, data, ts, tomb);
            r.Some? ==>
              && Tidy(r.value) && (Packed(t) ==> Packed(r.value))
              && var i := Target(t, key, owner);
              && i < |t.slots| && |r.value.slots| == |t.slots|
              && r.value.slots == t.slots[i := r.value.slots[i]]
              && Fits(t.slots, i, r.value.slots[i])
              && Holds(r.value.slots[i], key, owner)
              && (t.slots[i].used && !Holds(t.slots[i], key, owner) ==> t.slots[i].owner == t.id && !Packed(t))
  {
    var r := Slots.Upsert(t, key, owner, origin, name, data, ts, tomb);
    var i := Target(t, key, owner);
    if r.Some? {
      var sl := r.value.slots[i];
      assert r.value.slots == t.slots[i := sl];
      if i < t.count { NoOther(t.slots, i, key, owner); }
      assert Fits(t.slots, i, sl);
      PutSlotUnique(t.slots, i, sl);
      hide Fits, Unique;
    }
  }

  /** What an accepted upsert means for the maps, its owner being the node or not. */
  lemma UpsertMaps(t: Table, key: U32, owner: U64, origin: U64, name: Option<seq<Byte>>, data: seq<Byte>, ts: U64,
                   tomb: bool)
    requires Tidy(t) && StreamOf(t, owner).Room(key)
    ensures var r := Slots.Upsert(t, key, owner, origin, name, data, ts, tomb);
            && r.Some? && Tidy(r.value) && SameElsewhere(t, r.value, owner) && r.value.clock == t.clock
            && (owner != t.id || Packed(t) ==>
                  && Target(t, key, owner) < |t.slots|
                  && var sl := r.value.slots[Target(t, key, owner)];
                  && (name.Some? ==> RecOf(sl) == Stored(Rec(name.value, origin, ts, tomb, data)))
                  && StreamOf(r.value, owner) == Replica(View(t.slots, owner)[key := RecOf(sl)], t.clock,
                                                         if key in View(t.slots, owner) then t.count else t.count + 1))
  {
    hide View, Slots.Upsert, Tidy, Packed, Find;
    UpsertRefines(t, key, owner, origin, name, data, ts, tomb);
    var r := Slots.Upsert(t, key, owner, origin, name, data, ts, tomb);
    var i := Target(t, key, owner);
    var sl := r.value.slots[i];
    hide Target;
    if owner != t.id || Packed(t) {
      assert View(r.value.slots, owner) == View(t.slots, owner)[key := RecOf(sl)];
    }
  }

  lemma UpsertValid(t: Table, key: U32, owner: U64, origin: U64, name: Option<seq<Byte>>, data: seq<Byte>, ts: U64,
                    tomb: bool)
    requires Slots.Valid(t) && ts <= t.clock && (owner != SHARED_OWNER ==> origin == owner)
    requires if name.Some? then name.value != [] && 0 !in name.value else owner == t.id
    requires !tomb ==> 0 < |data| < TWO_32
    ensures var r := Slots.Upsert(t, key, owner, origin, name, data, ts, tomb);
            r.Some? ==> Slots.Valid(r.value)
  {
    hide Unique, View, Packed, Fits;
    UpsertSlot(t, key, owner, origin, name, data, ts, tomb);
    var r := Slots.Upsert(t, key, owner, origin, name, data, ts, tomb);
    if r.Some? {
      var i := Target(t, key, owner);
      assert SlotOk(r.value.slots[i], t.id, t.clock);
      hide Slots.Upsert, Tidy, Target;
    }
  }

  lemma TickValid(t: Table, c: U64)
    requires Slots.Valid(t) && t.clock <= c
    ensures Slots.Valid(t.(clock := c))
  {}

  // ----- The operations -----------------------------------------------------------------

  /** set, set_named and set_shared keep the table well-formed. */
  lemma WriteLocalValid(t: Table, key: U32, owner: U64, id: U64, name: Option<seq<Byte>>, data: seq<Byte>)
    requires Slots.Valid(t) && t.clock + 1 < TWO_64
    requires owner != SHARED_OWNER ==> id == owner
    requires if name.Some? then name.value != [] && 0 !in name.value else owner == t.id
    requires 0 < |data| < TWO_32
    ensures Slots.Valid(WriteLocal(t, key, owner, id, name, data))
  {
    hide Slots.Valid, Slots.Upsert;
    var t' := t.(clock := t.clock + 1);
    TickValid(t, t'.clock);
    UpsertValid(t', key, owner, id, name, data, t'.clock, false);
  }

  lemma SetSharedRefines(t: Table, id: U64, name: seq<Byte>, data: seq<Byte>)
    requires Tidy(t) && t.clock + 1 < TWO_64 && name != [] && data != []
    ensures var t' := WriteLocal(t, HashName(name), SHARED_OWNER, id, Some(name), data);
            && StreamOf(t', SHARED_OWNER) == SetShared(StreamOf(t, SHARED_OWNER), id, name, data)
            && SameElsewhere(t, t', SHARED_OWNER)
  {
    hide HashName, View, Slots.Upsert;
    var t' := t.(clock := t.clock + 1);
    if StreamOf(t', SHARED_OWNER).Room(HashName(name)) {
      UpsertMaps(t', HashName(name), SHARED_OWNER, id, Some(name), data, t'.clock, false);
    } else {
      UpsertRefines(t', HashName(name), SHARED_OWNER, id, Some(name), data, t'.clock, false);
    }
  }

  /** A raw-key write can be read back. */
  lemma RawReadBack(t: Table, key: U32, data: seq<Byte>)
    requires Tidy(t) && t.clock + 1 < TWO_64 && StreamOf(t, t.id).Room(key)
    ensures var w := View(WriteLocal(t, key, t.id, t.id, None, data).slots, t.id);
            key in w && w[key].data == data && !w[key].tomb && w[key].ts == t.clock + 1
  {
    hide View, Packed;
    var t1 := t.(clock := t.clock + 1);
    UpsertSlot(t1, key, t.id, t.id, None, data, t1.clock, false);
    UpsertRefines(t1, key, t.id, t.id, None, data, t1.clock, false);
    var r := Slots.Upsert(t1, key, t.id, t.id, None, data, t1.clock, false);
    hide Tidy;
    ViewAt(r.value.slots, Target(t1, key, t.id));
  }

  lemma BuryValid(t: Table, key: U32, owner: U64, origin: Option<U64>)
    requires Slots.Valid(t) && t.clock + 1 < TWO_64
    requires owner != SHARED_OWNER ==> origin.None?
    ensures Slots.Valid(Bury(t, key, owner, origin))
  {
    if LiveAt(t.slots, key, owner) {
      var i := Find(t.slots, key, owner);
      var t' := Bury(t, key, owner, origin);
      assert t'.slots == t.slots[i := t'.slots[i]];
      PutSlotUnique(t.slots, i, t'.slots[i]);
      assert SlotOk(t'.slots[i], t.id, t'.clock);
    }
  }

  /** remove, remove_named and remove_shared replace a live entry by a tombstone stamped with
      the next clock value, and do nothing when there is no live entry. */
  lemma BuryRefines(t: Table, key: U32, owner: U64, origin: Option<U64>)
    requires Tidy(t) && t.clock + 1 < TWO_64
    ensures var t' := Bury(t, key, owner, origin);
            var w := View(t.slots, owner);
            && SameElsewhere(t, t', owner)
            && StreamOf(t', owner) ==
               if !StreamOf(t, owner).Live(key) then StreamOf(t, owner)
               else Replica(w[key := Rec(w[key].name, if origin.Some? then origin.value else w[key].origin,
                                         t.clock + 1, true, [])], t.clock + 1, t.count)
  {
    hide View, Tidy, Packed, Find, Put, OnlyLoses;
    ViewHas(t.slots, key, owner);
    if LiveAt(t.slots, key, owner) {
      var i, t' := Find(t.slots, key, owner), Bury(t, key, owner, origin);
      BurySlot(t, key, owner, origin);
      PutSlot(t.slots, i, t'.slots[i]);
      forall o: U64
        ensures View(t'.slots, o)
             == if o == owner then View(t.slots, o)[key := RecOf(t'.slots[i])] else View(t.slots, o)
      {
        PutSame(View(t.slots, o), t.slots[i], t'.slots[i], o);
      }
      LosesNothing(View(t.slots, t.id));
    } else {
      LosesNothing(View(t.slots, t.id));
    }
  }

  lemma LosesNothing(w: World)
    ensures OnlyLoses(w, w)
  {}

  /** Overwriting a slot by a slot of the same field is one map update. */
  lemma PutSame(w: World, victim: Slot, sl: Slot, o: U64)
    requires Holds(victim, sl.key, sl.owner)
    ensures Put(w, victim, sl, o) == if o == sl.owner then w[sl.key := RecOf(sl)] else w
  {}

  lemma BurySlot(t: Table, key: U32, owner: U64, origin: Option<U64>)
    requires Tidy(t) && t.clock + 1 < TWO_64 && LiveAt(t.slots, key, owner)
    ensures var i, t' := Find(t.slots, key, owner), Bury(t, key, owner, origin);
            && |t'.slots| == |t.slots| && t'.slots == t.slots[i := t'.slots[i]]
            && Holds(t'.slots[i], key, owner) && Fits(t.slots, i, t'.slots[i])
            && Tidy(t') && (Packed(t) ==> Packed(t'))
  {
    var i, t' := Find(t.slots, key, owner), Bury(t, key, owner, origin);
    assert t'.slots == t.slots[i := t'.slots[i]];
    NoOther(t.slots, i, key, owner);
    PutSlotUnique(t.slots, i, t'.slots[i]);
  }

  lemma RemoveSharedRefines(t: Table, id: U64, name: seq<Byte>)
    requires Slots.Valid(t) && t.clock + 1 < TWO_64
    ensures var t' := Bury(t, HashName(name), SHARED_OWNER, Some(id));
            && Slots.Valid(t') && SameElsewhere(t, t', SHARED_OWNER)
            && StreamOf(t', SHARED_OWNER) == RemoveShared(StreamOf(t, SHARED_OWNER), id, name)
  {
    hide HashName, View;
    BuryRefines(t, HashName(name), SHARED_OWNER, Some(id));
    BuryValid(t, HashName(name), SHARED_OWNER, Some(id));
  }

  /** The guard of set_shared_cas, read off the slots. */
  predicate CasMatches(t: Table, key: U32, expected: Option<seq<Byte>>)
  {
    match expected
    case None => !LiveAt(t.slots, key, SHARED_OWNER)
    case Some(e) => LiveAt(t.slots, key, SHARED_OWNER) && t.slots[Find(t.slots, key, SHARED_OWNER)].data == e
  }

  lemma CasRefines(t: Table, key: U32, expected: Option<seq<Byte>>)
    ensures CasMatches(t, key, expected) <==> CasHolds(StreamOf(t, SHARED_OWNER), key, expected)
  {
    ViewHas(t.slots, key, SHARED_OWNER);
  }

  /** merge_shared and merge_named are the last-writer-wins merge of the owner's stream, unless
      that is the node's own, which they refuse. */
  lemma MergeRefines(t: Table, owner: U64, r: Rec)
    requires Tidy(t)
    ensures var t' := Merge(t, owner, r);
            && Tidy(t') && SameElsewhere(t, t', owner)
            && (if owner == t.id then t' == t else StreamOf(t', owner) == MergeRec(StreamOf(t, owner), r))
  {
    hide HashName, View, Slots.Upsert;
    if Mergeable(r) && owner != t.id {
      var key := HashName(r.name);
      ViewHas(t.slots, key, owner);
      var t1 := t.(clock := Max(t.clock, r.ts));
      if StreamOf(t1, owner).Room(key) {
        UpsertMaps(t1, key, owner, r.origin, Some(r.name), r.data, r.ts, r.tomb);
      } else {
        UpsertRefines(t1, key, owner, r.origin, Some(r.name), r.data, r.ts, r.tomb);
      }
    }
  }

  lemma MergeValid(t: Table, owner: U64, r: Rec)
    requires Slots.Valid(t) && 0 !in r.name && |r.data| < TWO_32
    requires owner != SHARED_OWNER ==> r.origin == owner
    ensures Slots.Valid(Merge(t, owner, r))
  {
    hide HashName;
    if Mergeable(r) && owner != t.id {
      var t1 := t.(clock := Max(t.clock, r.ts));
      TickValid(t, t1.clock);
      UpsertValid(t1, HashName(r.name), owner, r.origin, Some(r.name), r.data, r.ts, r.tomb);
    }
  }

  /** The record loop of an import over the slots. */
  function MergeEach(t: Table, owner: U64, rs: seq<Rec>): (t': Table)
    requires t.count <= |t.slots|
    ensures t'.count <= |t'.slots| == |t.slots|
    decreases |rs|
  {
    if rs == [] then t else MergeEach(Merge(t, owner, rs[0]), owner, rs[1..])
  }

  lemma {:induction false} MergeEachRefines(t: Table, owner: U64, rs: seq<Rec>)
    requires Tidy(t)
    ensures Tidy(MergeEach(t, owner, rs)) && SameElsewhere(t, MergeEach(t, owner, rs), owner)
    ensures owner != t.id ==> StreamOf(MergeEach(t, owner, rs), owner) == MergeAll(StreamOf(t, owner), rs)
    decreases |rs|
  {
    hide Packed, Merge, View, Unique;
    if rs != [] {
      MergeRefines(t, owner, rs[0]);
      MergeEachRefines(Merge(t, owner, rs[0]), owner, rs[1..]);
    }
  }

  lemma {:induction false} MergeEachSnoc(t: Table, owner: U64, rs: seq<Rec>, r: Rec)
    requires t.count <= |t.slots|
    ensures MergeEach(t, owner, rs + [r]) == Merge(MergeEach(t, owner, rs), owner, r)
    decreases |rs|
  {
    if rs == [] {
      assert rs + [r] == [r];
    } else {
      assert (rs + [r])[1..] == rs[1..] + [r];
      MergeEachSnoc(Merge(t, owner, rs[0]), owner, rs[1..], r);
    }
  }

  // ----- Compaction ---------------------------------------------------------------------

  lemma {:induction false} KeptRank(s: seq<Slot>, i: nat)
    requires i < |s| && Kept(s[i])
    ensures |KeptOf(s[..i])| < |KeptOf(s)| && KeptOf(s)[|KeptOf(s[..i])|] == s[i]
    ensures |KeptOf(s[..i])| <= i
  {
    var n := |s| - 1;
    if i < n {
      KeptRank(s[..n], i);
      assert s[..n][..i] == s[..i];
    }
  }

  lemma {:induction false} KeptSource(s: seq<Slot>, j: nat) returns (i: nat)
    requires j < |KeptOf(s)|
    ensures i < |s| && Kept(s[i]) && KeptOf(s)[j] == s[i] && j == |KeptOf(s[..i])|
  {
    var n := |s| - 1;
    if j < |KeptOf(s[..n])| {
      i := KeptSource(s[..n], j);
      assert s[..n][..i] == s[..i];
    } else {
      i := n;
    }
  }

  /** A tail with nothing to keep changes nothing. */
  lemma {:induction false} KeptPrefix(s: seq<Slot>, n: nat)
    requires n <= |s| && forall i :: n <= i < |s| ==> !Kept(s[i])
    ensures KeptOf(s) == KeptOf(s[..n])
  {
    if n == |s| {
      assert s[..n] == s;
    } else {
      KeptPrefix(s[..|s| - 1], n);
      assert s[..|s| - 1][..n] == s[..n];
    }
  }

  lemma KeptUnique(s: seq<Slot>)
    requires Unique(s)
    ensures Unique(KeptOf(s))
  {
    var k := KeptOf(s);
    forall i, j | 0 <= i < j < |k| ensures k[i].key != k[j].key || k[i].owner != k[j].owner {
      var a := KeptSource(s, i);
      var b := KeptSource(s, j);
      assert a != b;
    }
  }

  lemma KeptUsed(s: seq<Slot>)
    ensures forall j :: 0 <= j < |KeptOf(s)| ==> KeptOf(s)[j].used
  {
    forall j | 0 <= j < |KeptOf(s)| ensures KeptOf(s)[j].used {
      var a := KeptSource(s, j);
    }
  }

  /** Compaction counts exactly the live fields and the named tombstones, and holds them first. */
  lemma CompactCount(t: Table)
    ensures var s := t.slots;
            Compact(t).count == |set i: nat | i < |s| && s[i].used && (!s[i].tomb || s[i].name != [])|
    ensures var t' := Compact(t);
            t'.count <= |t'.slots| &&
            forall i :: 0 <= i < t'.count ==> t'.slots[i].used && (!t'.slots[i].tomb || t'.slots[i].name != [])
  {
    KeptCount(t.slots);
    forall i | 0 <= i < |KeptOf(t.slots)| ensures Kept(KeptOf(t.slots)[i]) {
      var j := KeptSource(t.slots, i);
    }
  }

  lemma {:induction false} KeptCount(s: seq<Slot>)
    ensures |KeptOf(s)| == |set i: nat | i < |s| && s[i].used && (!s[i].tomb || s[i].name != [])|
  {
    var now := set i: nat | i < |s| && s[i].used && (!s[i].tomb || s[i].name != []);
    if s == [] {
      assert now == {};
    } else {
      var n := |s| - 1;
      KeptCount(s[..n]);
      var was := set i: nat | i < n && s[..n][i].used && (!s[..n][i].tomb || s[..n][i].name != []);
      assert now == was + if Kept(s[n]) then {n} else {};
      assert n !in was;
    }
  }

  /** Compaction leaves the table packed exactly when no unnamed tombstone sits at or behind the
      number of kept slots. */
  lemma CompactPacked(t: Table)
    requires Tidy(t)
    ensures Packed(Compact(t)) <==> forall i :: |KeptOf(t.slots)| <= i < CAPACITY && t.slots[i].used ==>
            Kept(t.slots[i])
  {
    var t' := Compact(t);
    KeptUsed(t.slots);
    CompactUnique(t);
    hide Unique, KeptOf;
    var n := |KeptOf(t.slots)|;
    if forall i :: n <= i < CAPACITY && t.slots[i].used ==> Kept(t.slots[i]) {
      assert forall i :: n <= i < CAPACITY ==> t'.slots[i] == EMPTY_SLOT;
    } else {
      var i :| n <= i < CAPACITY && t.slots[i].used && !Kept(t.slots[i]);
      assert t'.slots[i] == t.slots[i];
    }
  }

  lemma CompactUnique(t: Table)
    requires Unique(t.slots)
    ensures Unique(Compact(t).slots)
  {
    var s, s' := t.slots, Compact(t).slots;
    var kept := KeptOf(s);
    KeptUnique(s);
    forall i, j | 0 <= i < j < |s'| && s'[i].used && s'[j].used
      ensures s'[i].key != s'[j].key || s'[i].owner != s'[j].owner
    {
      if i < |kept| <= j {
        var a := KeptSource(s, i);
        assert a != j;
      }
    }
  }

  /** What compaction may do to a map: nothing is added or changed, and every live entry and
      every named tombstone stays. */
  ghost predicate Survives(w: World, w': World)
  {
    && (forall k :: k in w' ==> k in w && w'[k] == w[k])
    && (forall k :: k in w && (!w[k].tomb || w[k].name != []) ==> k in w')
  }

  lemma CompactEntry(t: Table, owner: U64, k: U32)
    requires Unique(t.slots)
    ensures var w, w' := View(t.slots, owner), View(Compact(t).slots, owner);
            && (k in w' ==> k in w && w'[k] == w[k])
            && (k in w && (!w[k].tomb || w[k].name != []) ==> k in w')
  {
    var s, s' := t.slots, Compact(t).slots;
    CompactUnique(t);
    ViewHas(s, k, owner);
    ViewHas(s', k, owner);
    hide View, Unique, KeptOf;
    if k in View(s, owner) && Kept(s[Find(s, k, owner)]) {
      var i := Find(s, k, owner);
      KeptRank(s, i);
      ViewAt(s', |KeptOf(s[..i])|);
    }
    CompactNothingNew(t, owner, k);
  }

  lemma CompactNothingNew(t: Table, owner: U64, k: U32)
    requires Unique(t.slots)
    ensures var w, w' := View(t.slots, owner), View(Compact(t).slots, owner); k in w' ==> k in w && w'[k] == w[k]
  {
    var s, s' := t.slots, Compact(t).slots;
    ViewHas(s', k, owner);
    hide View, Unique, KeptOf;
    if k in View(s', owner) {
      var j := Find(s', k, owner);
      var i := j;
      if j < |KeptOf(s)| {
        i := KeptSource(s, j);
      }
      ViewAt(s, i);
    }
  }

  /** Compaction drops unnamed tombstones and nothing else, in every owner's map. */
  lemma CompactView(t: Table, owner: U64)
    requires Unique(t.slots)
    ensures Survives(View(t.slots, owner), View(Compact(t).slots, owner))
  {
    hide View, Unique, Compact;
    forall k: U32
      ensures var w, w' := View(t.slots, owner), View(Compact(t).slots, owner);
              && (k in w' ==> k in w && w'[k] == w[k])
              && (k in w && (!w[k].tomb || w[k].name != []) ==> k in w')
    {
      CompactEntry(t, owner, k);
    }
  }

  /** A map whose entries are all named is untouched; every shared field is. */
  lemma CompactShared(t: Table)
    requires Slots.Valid(t)
    ensures View(Compact(t).slots, SHARED_OWNER) == View(t.slots, SHARED_OWNER)
  {
    hide View, Compact, Slots.Valid;
    UniqueSlots(t);
    CompactView(t, SHARED_OWNER);
    SharedNamed(t);
    assert View(Compact(t).slots, SHARED_OWNER) == View(t.slots, SHARED_OWNER);
  }

  lemma UniqueSlots(t: Table)
    requires Slots.Valid(t)
    ensures Unique(t.slots)
  {}

  lemma SharedNamed(t: Table)
    requires Slots.Valid(t)
    ensures forall k :: k in View(t.slots, SHARED_OWNER) ==> View(t.slots, SHARED_OWNER)[k].name != []
  {
    forall k | k in View(t.slots, SHARED_OWNER) ensures View(t.slots, SHARED_OWNER)[k].name != [] {
      ViewHas(t.slots, k, SHARED_OWNER);
      assert SlotOk(t.slots[Find(t.slots, k, SHARED_OWNER)], t.id, t.clock);
    }
  }

  /** Compaction never breaks the table: what it leaves behind the count are tombstones of the
      node's own raw keys. */
  lemma CompactValid(t: Table)
    requires Slots.Valid(t)
    ensures Slots.Valid(Compact(t))
  {
    var t' := Compact(t);
    KeptUsed(t.slots);
    CompactUnique(t);
    forall i | 0 <= i < |t.slots| && t'.slots[i].used ensures SlotOk(t'.slots[i], t.id, t.clock) {
      if i < |KeptOf(t.slots)| {
        var j := KeptSource(t.slots, i);
      }
    }
    hide Unique, KeptOf;
  }

  /** The named API never leaves an unnamed slot, so it can compact at any time. */
  lemma CompactNamed(t: Table)
    requires Slots.Valid(t) && Packed(t)
    requires forall i :: 0 <= i < |t.slots| && t.slots[i].used ==> t.slots[i].name != []
    ensures Slots.Valid(Compact(t)) && Compact(t) == t
  {
    KeptPrefix(t.slots, t.count);
    KeptAll(t.slots[..t.count]);
    assert Compact(t).slots == t.slots;
  }

  lemma {:induction false} KeptAll(s: seq<Slot>)
    requires forall i :: 0 <= i < |s| ==> Kept(s[i])
    ensures KeptOf(s) == s
  {
    if s != [] {
      KeptAll(s[..|s| - 1]);
      assert s == s[..|s| - 1] + [s[|s| - 1]];
    }
  }

  // ----- A raw-key run that loses a live field ------------------------------------------

  ghost function EmptyTable(id: U64): Table
  {
    Table(id, seq(CAPACITY, i => EMPTY_SLOT), 0, 0)
  }

  function RawSlot(key: U32, id: U64, ts: U64, tomb: bool, d: seq<Byte>): Slot
  {
    Slot(true, key, id, id, [], if tomb then [] else d, ts, tomb, 0)
  }

  lemma RawRunBegins(id: U64, d: seq<Byte>)
    requires id != SHARED_OWNER && d != []
    ensures var t2 := WriteLocal(WriteLocal(EmptyTable(id), 1, id, id, None, d), 2, id, id, None, d);
            Bury(t2, 2, id, None) == Table(id, RawSlots(RawSlot(2, id, 3, true, d), id, d), 2, 3)
  {
    var t0 := EmptyTable(id);
    var t1 := WriteLocal(t0, 1, id, id, None, d);
    assert Find(t0.slots, 1, id) == CAPACITY;
    assert t1 == Table(id, t0.slots[0 := RawSlot(1, id, 1, false, d)], 1, 1);
    var t2 := WriteLocal(t1, 2, id, id, None, d);
    assert Find(t1.slots, 2, id) == CAPACITY;
    assert t2 == Table(id, t1.slots[1 := RawSlot(2, id, 2, false, d)], 2, 2);
    assert !Holds(t2.slots[0], 2, id) && Holds(t2.slots[1], 2, id);
    assert Find(t2.slots, 2, id) == 1;
  }

  /** set 1, set 2, remove 2, compact, set 2, set 3: the tombstone of key 2 stays marked as
      used behind the count, is revived in place, and the next new key is written over it. */
  lemma RawKeyLoss(id: U64, d: seq<Byte>)
    requires id != SHARED_OWNER && d != []
    ensures var t2 := WriteLocal(WriteLocal(EmptyTable(id), 1, id, id, None, d), 2, id, id, None, d);
            var t3 := Compact(Bury(t2, 2, id, None));
            var t4 := WriteLocal(t3, 2, id, id, None, d);
            var t5 := WriteLocal(t4, 3, id, id, None, d);
            && !Packed(t3) && LiveAt(t4.slots, 2, id) && LiveAt(t5.slots, 3, id)
            && Find(t5.slots, 2, id) == CAPACITY
  {
    hide Find, WriteLocal, Compact, Bury;
    RawRunBegins(id, d);
    RawRunCompacts(id, d);
    RawRunRevives(id, d);
    RawRunOverwrites(id, d);
  }

  /** Key 1 live in the first slot, `second` in the next, the rest empty. */
  ghost function RawSlots(second: Slot, id: U64, d: seq<Byte>): seq<Slot>
  {
    EmptyTable(id).slots[0 := RawSlot(1, id, 1, false, d)][1 := second]
  }

  lemma RawRunCompacts(id: U64, d: seq<Byte>)
    requires id != SHARED_OWNER && d != []
    ensures var s := RawSlots(RawSlot(2, id, 3, true, d), id, d);
            Compact(Table(id, s, 2, 3)) == Table(id, s, 1, 3) && !Packed(Table(id, s, 1, 3))
  {
    var s := RawSlots(RawSlot(2, id, 3, true, d), id, d);
    KeptPrefix(s, 1);
    assert s[..1] == [s[0]] && s[..1][..0] == [];
    assert KeptOf(s[..1]) == KeptOf([]) + [s[0]];
    assert s[1].used;
  }

  lemma RawRunRevives(id: U64, d: seq<Byte>)
    requires id != SHARED_OWNER && d != []
    ensures var s, s4 := RawSlots(RawSlot(2, id, 3, true, d), id, d), RawSlots(RawSlot(2, id, 4, false, d), id, d);
            WriteLocal(Table(id, s, 1, 3), 2, id, id, None, d) == Table(id, s4, 1, 4) && LiveAt(s4, 2, id)
  {
    hide FindFrom;
    var s, s4 := RawSlots(RawSlot(2, id, 3, true, d), id, d), RawSlots(RawSlot(2, id, 4, false, d), id, d);
    RawFinds(RawSlot(2, id, 3, true, d), id, d, 2);
    RawFinds(RawSlot(2, id, 4, false, d), id, d, 2);
    assert s[1 := RawSlot(2, id, 4, false, d)] == s4;
  }

  lemma RawRunOverwrites(id: U64, d: seq<Byte>)
    requires id != SHARED_OWNER && d != []
    ensures var s4, s5 := RawSlots(RawSlot(2, id, 4, false, d), id, d), RawSlots(RawSlot(3, id, 5, false, d), id, d);
            && WriteLocal(Table(id, s4, 1, 4), 3, id, id, None, d) == Table(id, s5, 2, 5)
            && LiveAt(s5, 3, id) && Find(s5, 2, id) == CAPACITY
  {
    hide FindFrom;
    var s4, s5 := RawSlots(RawSlot(2, id, 4, false, d), id, d), RawSlots(RawSlot(3, id, 5, false, d), id, d);
    RawFinds(RawSlot(2, id, 4, false, d), id, d, 3);
    RawFinds(RawSlot(3, id, 5, false, d), id, d, 3);
    RawFinds(RawSlot(3, id, 5, false, d), id, d, 2);
    assert s4[1 := RawSlot(3, id, 5, false, d)] == s5;
  }

  lemma RawFinds(second: Slot, id: U64, d: seq<Byte>, key: U32)
    requires key != 1 && second.used && second.owner == id
    ensures var s := RawSlots(second, id, d);
            |s| == CAPACITY && s[1] == second && Find(s, key, id) == if second.key == key then 1 else CAPACITY
  {
    hide FindFrom;
    var s := RawSlots(second, id, d);
    assert !Holds(s[0], key, id);
    if second.key == key {
      assert Holds(s[1], key, id);
    } else {
      assert forall i :: 0 <= i < |s| ==> !Holds(s[i], key, id);
    }
  }
}
