/** The fixed slot table of the state manager, as values: what each operation does to the
    slots, and the map every owner's slots represent. The class that runs these operations in
    place is in Store. */
module Slots {
  import opened Bytes
  import opened Hashing
  import opened Lww

  /** struct FieldEntry; `size` is the length of `data`. */
  datatype Slot = Slot(used: bool, key: U32, owner: U64, origin: U64, name: seq<Byte>, data: seq<Byte>,
                       ts: U64, tomb: bool, lastExport: U64)

  const EMPTY_SLOT := Slot(false, 0, 0, 0, [], [], 0, false, 0)

  /** The node's id and the mutable fields of its manager that decide what it stores. */
  datatype Table = Table(id: U64, slots: seq<Slot>, count: nat, clock: U64)

  predicate Holds(sl: Slot, key: U32, owner: U64)
  {
    sl.used && sl.key == key && sl.owner == owner
  }

  /** find_slot_owned: the first slot of (key, owner) at or after `from`, or the table length. */
  function FindFrom(s: seq<Slot>, key: U32, owner: U64, from: nat): (i: nat)
    requires from <= |s|
    ensures from <= i <= |s|
    ensures i < |s| ==> Holds(s[i], key, owner)
    ensures forall j :: from <= j < i ==> !Holds(s[j], key, owner)
    decreases |s| - from
  {
    if from == |s| || Holds(s[from], key, owner) then from else FindFrom(s, key, owner, from + 1)
  }

  function Find(s: seq<Slot>, key: U32, owner: U64): (i: nat)
    ensures i <= |s|
    ensures i < |s| ==> Holds(s[i], key, owner)
    ensures forall j :: 0 <= j < i ==> !Holds(s[j], key, owner)
  {
    FindFrom(s, key, owner, 0)
  }

  /** find_field_owned: the slot exists and is not a tombstone. */
  predicate LiveAt(s: seq<Slot>, key: U32, owner: U64)
  {
    var i := Find(s, key, owner);
    i < |s| && !s[i].tomb
  }

  // ----- Operations ------------------------------------------------------------------

  /** The slot upsert_field leaves behind: `base` with its value replaced. A raw-key write
      passes no name and keeps the one in the slot. */
  function Overwrite(base: Slot, owner: U64, origin: U64, name: Option<seq<Byte>>, data: seq<Byte>, ts: U64,
                     tomb: bool): Slot
  {
    base.(owner := owner, origin := origin, ts := ts, tomb := tomb,
          data := if tomb then [] else data,
          name := if name.Some? then StoredName(name.value) else base.name)
  }

  /** upsert_field: reuse the slot of (key, owner), else take slot `count`, else fail. */
  function Upsert(t: Table, key: U32, owner: U64, origin: U64, name: Option<seq<Byte>>, data: seq<Byte>, ts: U64,
                  tomb: bool): (r: Option<Table>)
    requires t.count <= |t.slots|
    ensures r.Some? ==> r.value.count <= |r.value.slots| == |t.slots|
  {
    var i := Find(t.slots, key, owner);
    if i < |t.slots| then
      Some(t.(slots := t.slots[i := Overwrite(t.slots[i], owner, origin, name, data, ts, tomb)]))
    else if t.count == |t.slots| then None
    else
      var base := t.slots[t.count].(key := key, used := true, name := []);
      Some(t.(slots := t.slots[t.count := Overwrite(base, owner, origin, name, data, ts, tomb)], count := t.count + 1))
  }

  function OrKeep(r: Option<Table>, t: Table): Table
  {
    if r.Some? then r.value else t
  }

  /** A local write under the manager's next clock value. A failed upsert keeps the tick. */
  function WriteLocal(t: Table, key: U32, owner: U64, id: U64, name: Option<seq<Byte>>, data: seq<Byte>): (t': Table)
    requires t.count <= |t.slots| && t.clock + 1 < TWO_64
    ensures t'.count <= |t'.slots| == |t.slots|
  {
    var t1 := t.(clock := t.clock + 1);
    OrKeep(Upsert(t1, key, owner, id, name, data, t1.clock, false), t1)
  }

  /** remove, remove_named, remove_shared: stamp the live slot as a fresh tombstone. Only the
      shared form also records the deleter as origin. */
  function Bury(t: Table, key: U32, owner: U64, origin: Option<U64>): Table
    requires t.clock + 1 < TWO_64
  {
    if !LiveAt(t.slots, key, owner) then t
    else
      var i := Find(t.slots, key, owner);
      var sl := t.slots[i].(data := [], tomb := true, ts := t.clock + 1,
                            origin := if origin.Some? then origin.value else t.slots[i].origin);
      t.(slots := t.slots[i := sl], clock := t.clock + 1)
  }

  /** merge_shared and merge_named. The node's own stream is never merged into. On any other
      node's stream every record has the owner as its origin, so the origin tie-break never
      fires there. */
  function Merge(t: Table, owner: U64, r: Rec): (t': Table)
    requires t.count <= |t.slots|
    ensures t'.count <= |t'.slots| == |t.slots|
  {
    if !Mergeable(r) || owner == t.id then t
    else
      var key := HashName(r.name);
      var t1 := t.(clock := Max(t.clock, r.ts));
      var i := Find(t.slots, key, owner);
      if i < |t.slots| && !Beats(r, RecOf(t.slots[i])) then t1
      else OrKeep(Upsert(t1, key, owner, r.origin, Some(r.name), r.data, r.ts, r.tomb), t1)
  }

  predicate Kept(sl: Slot)
  {
    sl.used && (!sl.tomb || sl.name != [])
  }

  function KeptOf(s: seq<Slot>): (r: seq<Slot>)
    ensures |r| <= |s|
  {
    if s == [] then []
    else KeptOf(s[..|s| - 1]) + if Kept(s[|s| - 1]) then [s[|s| - 1]] else []
  }

  /** compact: kept slots move to the front in order; a slot behind them is cleared if it was
      moved and left as it was if it was not kept. */
  function Compact(t: Table): Table
  {
    var kept := KeptOf(t.slots);
    t.(slots := seq(|t.slots|, i requires 0 <= i < |t.slots| =>
                      if i < |kept| then kept[i] else if Kept(t.slots[i]) then EMPTY_SLOT else t.slots[i]),
       count := |kept|)
  }

  // ----- Well-formed tables and the maps they represent ---------------------------------

  function RecOf(sl: Slot): Rec
  {
    Rec(sl.name, sl.origin, sl.ts, sl.tomb, sl.data)
  }

  ghost predicate Unique(s: seq<Slot>)
  {
    forall i, j :: 0 <= i < j < |s| && s[i].used && s[j].used ==> s[i].key != s[j].key || s[i].owner != s[j].owner
  }

  /** Occupied slots are exactly 0 .. count - 1, one per (key, owner). */
  ghost predicate Packed(t: Table)
  {
    && |t.slots| == CAPACITY && t.count <= CAPACITY
    && (forall i :: 0 <= i < t.count ==> t.slots[i].used)
    && (forall i :: t.count <= i < CAPACITY ==> t.slots[i] == EMPTY_SLOT)
    && Unique(t.slots)
  }

  /** What every operation keeps, compaction of raw-key fields included: at or behind the count
      only fields of the node itself can be left. */
  ghost predicate Tidy(t: Table)
  {
    && t.id != SHARED_OWNER && |t.slots| == CAPACITY && t.count <= CAPACITY
    && (forall i :: 0 <= i < t.count ==> t.slots[i].used)
    && (forall i :: t.count <= i < CAPACITY ==>
          t.slots[i] == EMPTY_SLOT || (t.slots[i].used && t.slots[i].owner == t.id))
    && Unique(t.slots)
  }

  predicate SlotOk(sl: Slot, id: U64, clock: U64)
  {
    && sl.ts <= clock && sl.lastExport <= clock
    && (sl.name == [] ==> sl.owner == id)
    && (sl.owner != SHARED_OWNER ==> sl.origin == sl.owner)
    && |sl.name| <= NAME_CAP && 0 !in sl.name
    && sl.tomb == (sl.data == []) && |sl.data| < TWO_32
  }

  ghost predicate Valid(t: Table)
  {
    Tidy(t) && forall i :: 0 <= i < |t.slots| && t.slots[i].used ==> SlotOk(t.slots[i], t.id, t.clock)
  }

  ghost function KeysOf(s: seq<Slot>, owner: U64): set<U32>
  {
    set i | 0 <= i < |s| && s[i].used && s[i].owner == owner :: s[i].key
  }

  /** What an owner's slots represent. */
  ghost function View(s: seq<Slot>, owner: U64): World
  {
    map k | k in KeysOf(s, owner) :: Entry(s, k, owner)
  }

  function Entry(s: seq<Slot>, key: U32, owner: U64): Rec
  {
    var i := Find(s, key, owner);
    if i < |s| then RecOf(s[i]) else RecOf(EMPTY_SLOT)
  }

  ghost function StreamOf(t: Table, owner: U64): Replica
  {
    Replica(View(t.slots, owner), t.clock, t.count)
  }

  lemma FindUnique(s: seq<Slot>, i: nat)
    requires Unique(s) && i < |s| && s[i].used
    ensures Find(s, s[i].key, s[i].owner) == i
  {}

  lemma ViewAt(s: seq<Slot>, i: nat)
    requires Unique(s) && i < |s| && s[i].used
    ensures s[i].key in View(s, s[i].owner) && View(s, s[i].owner)[s[i].key] == RecOf(s[i])
  {
    FindUnique(s, i);
  }

  lemma ViewHas(s: seq<Slot>, key: U32, owner: U64)
    ensures key in View(s, owner) <==> Find(s, key, owner) < |s|
    ensures key in View(s, owner) ==> View(s, owner)[key] == RecOf(s[Find(s, key, owner)])
  {}

  /** `sl` may be written into slot `i`: no other slot has its (key, owner). */
  ghost predicate Fits(s: seq<Slot>, i: nat, sl: Slot)
  {
    && Unique(s) && i < |s| && sl.used
    && forall j :: 0 <= j < |s| && j != i ==> !Holds(s[j], sl.key, sl.owner)
  }

  lemma PutSlotUnique(s: seq<Slot>, i: nat, sl: Slot)
    requires Fits(s, i, sl)
    ensures Unique(s[i := sl])
  {}

  /** `w` without the field `victim` holds, if that is a field of `owner`. */
  ghost function Without(w: World, victim: Slot, owner: U64): World
  {
    if victim.used && victim.owner == owner then map k | k in w && k != victim.key :: w[k] else w
  }

  lemma PutSlotElsewhere(s: seq<Slot>, i: nat, sl: Slot, k: U32, o: U64)
    requires Fits(s, i, sl) && !Holds(sl, k, o)
    ensures k in View(s[i := sl], o) <==> k in View(s, o) && !Holds(s[i], k, o)
    ensures k in View(s[i := sl], o) ==> View(s[i := sl], o)[k] == View(s, o)[k]
  {
    var s' := s[i := sl];
    ViewHas(s, k, o);
    ViewHas(s', k, o);
    hide View, Unique;
    if Holds(s[i], k, o) {
      FindUnique(s, i);
      assert forall j :: 0 <= j < |s| ==> !Holds(s'[j], k, o) by {
        NoOther(s, i, k, o);
      }
    } else {
      assert forall j :: 0 <= j < |s| ==> (Holds(s'[j], k, o) <==> Holds(s[j], k, o));
      assert Find(s', k, o) == Find(s, k, o);
    }
  }

  lemma NoOther(s: seq<Slot>, i: nat, k: U32, o: U64)
    requires Unique(s) && i < |s| && Holds(s[i], k, o)
    ensures forall j :: 0 <= j < |s| && j != i ==> !Holds(s[j], k, o)
  {}

  /** Writing one slot replaces whatever field it held by the new one, and nothing else. */
  lemma PutSlot(s: seq<Slot>, i: nat, sl: Slot)
    requires Fits(s, i, sl)
    ensures Unique(s[i := sl])
    ensures forall o :: View(s[i := sl], o) == Put(View(s, o), s[i], sl, o)
  {
    PutSlotUnique(s, i, sl);
    hide Fits, View, Unique, Put;
    forall o: U64 ensures View(s[i := sl], o) == Put(View(s, o), s[i], sl, o) {
      PutSlotView(s, i, sl, o);
    }
  }

  /** The map of `o` after slot `i` was overwritten by `sl`. */
  ghost function Put(w: World, victim: Slot, sl: Slot, o: U64): World
  {
    if o == sl.owner then Without(w, victim, o)[sl.key := RecOf(sl)] else Without(w, victim, o)
  }

  lemma PutSlotView(s: seq<Slot>, i: nat, sl: Slot, o: U64)
    requires Fits(s, i, sl)
    ensures View(s[i := sl], o) == Put(View(s, o), s[i], sl, o)
  {
    hide View, Put, Unique, Holds;
    forall k: U32
      ensures k in View(s[i := sl], o) <==> k in Put(View(s, o), s[i], sl, o)
      ensures k in View(s[i := sl], o) ==> View(s[i := sl], o)[k] == Put(View(s, o), s[i], sl, o)[k]
    {
      PutSlotKey(s, i, sl, o, k);
    }
  }

  lemma PutSlotKey(s: seq<Slot>, i: nat, sl: Slot, o: U64, k: U32)
    requires Fits(s, i, sl)
    ensures k in View(s[i := sl], o) <==> k in Put(View(s, o), s[i], sl, o)
    ensures k in View(s[i := sl], o) ==> View(s[i := sl], o)[k] == Put(View(s, o), s[i], sl, o)[k]
  {
    hide View, Unique;
    if Holds(sl, k, o) {
      PutSlotUnique(s, i, sl);
      ViewAt(s[i := sl], i);
    } else {
      PutSlotElsewhere(s, i, sl, k, o);
    }
  }
}
