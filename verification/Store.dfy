/** The state manager in its own form: a fixed array of slots updated in place. Each method is
    tied to the value-level operation of Slots, and through SlotMaps to the last-writer-wins
    stream of Lww. */
module Store {
  import opened Bytes
  import opened Cbor
  import opened Hashing
  import opened Lww
  import opened Wire
  import opened Slots
  import opened SlotMaps
  import opened Digest
  import opened Bounded
  import opened Frames
  import opened Control
  import opened Repair
  import InsertionSort

  /** FLEECE_VALUE_FRAME_BYTE_CAP */
  const VALUE_FRAME_CAP: nat := 320

  class StateManager {
    const nodeId: U64
    const fields: array<Slot>
    var fieldCount: nat
    var clock: U64
    var currentTick: U64
    var lastWriteTick: Option<U64>

    ghost function State(): Table
      reads this, fields
    {
      Table(nodeId, fields[..], fieldCount, clock)
    }

    ghost predicate Valid()
      reads this, fields
    {
      Slots.Valid(State())
    }

    ghost function Stream(owner: U64): Replica
      reads this, fields
    {
      StreamOf(State(), owner)
    }

    /** create_with_node_id; the shared owner id is not a node. */
    constructor (id: U64)
      requires id != SHARED_OWNER
      ensures Valid() && nodeId == id && fresh(fields)
      ensures Packed(State()) && currentTick == 0 && lastWriteTick.None?
      ensures forall owner :: Stream(owner) == Replica(map[], 0, 0)
    {
      nodeId := id;
      fields := new Slot[CAPACITY](_ => EMPTY_SLOT);
      fieldCount, clock, currentTick, lastWriteTick := 0, 0, 0, None;
      new;
      assert forall owner :: View(fields[..], owner) == map[];
    }

    // ----- Slots -----------------------------------------------------------------------

    method FindSlot(key: U32, owner: U64) returns (i: nat)
      ensures i == Find(fields[..], key, owner)
    {
      i := 0;
      while i < fields.Length && !Holds(fields[i], key, owner)
        invariant i <= fields.Length
        invariant Find(fields[..], key, owner) == FindFrom(fields[..], key, owner, i)
      {
        i := i + 1;
      }
    }

    method UpsertField(key: U32, owner: U64, origin: U64, name: Option<seq<Byte>>, data: seq<Byte>, ts: U64,
                       tomb: bool) returns (ok: bool)
      requires fieldCount <= fields.Length
      modifies this`fieldCount, fields
      ensures var r := Slots.Upsert(old(State()), key, owner, origin, name, data, ts, tomb);
              ok == r.Some? && State() == OrKeep(r, old(State()))
    {
      var i := FindSlot(key, owner);
      if i == fields.Length {
        if fieldCount >= fields.Length {
          return false;
        }
        i := fieldCount;
        fieldCount := fieldCount + 1;
        fields[i] := fields[i].(key := key, used := true, name := []);
      }
      fields[i] := Overwrite(fields[i], owner, origin, name, data, ts, tomb);
      ok := true;
    }

    /** The common part of set, set_named, set_shared and a matching set_shared_cas. */
    method Write(key: U32, owner: U64, name: Option<seq<Byte>>, data: seq<Byte>) returns (rc: int)
      requires Valid() && clock + 1 < TWO_64 && 0 < |data| < TWO_32
      requires owner == SHARED_OWNER || owner == nodeId
      requires if name.Some? then name.value != [] && 0 !in name.value else owner == nodeId
      modifies this`fieldCount, this`clock, fields
      ensures Valid()
      ensures State() == WriteLocal(old(State()), key, owner, nodeId, name, data)
      ensures rc == if old(Stream(owner)).Room(key) then 0 else -1
    {
      hide View, Find, Overwrite, Slots.Valid, Tidy, Packed, Slots.Upsert, Put, Target;
      ghost var t := State();
      WriteLocalValid(t, key, owner, nodeId, name, data);
      TickValid(t, clock + 1);
      TidyOf(t.(clock := t.clock + 1));
      UpsertRefines(t.(clock := t.clock + 1), key, owner, nodeId, name, data, t.clock + 1, false);
      clock := clock + 1;
      var ok := UpsertField(key, owner, nodeId, name, data, clock, false);
      rc := if ok then 0 else -1;
    }

    /** fleece_state_manager_set, by raw key. */
    method SetRaw(key: U32, data: seq<Byte>) returns (rc: int)
      requires Valid() && clock + 1 < TWO_64 && |data| < TWO_32
      modifies this`fieldCount, this`clock, fields
      ensures Valid()
      ensures rc == if data != [] && old(Stream(nodeId)).Room(key) then 0 else -1
      ensures data == [] ==> State() == old(State())
      ensures rc == 0 ==> var w := Stream(nodeId).world;
                          key in w && w[key].data == data && !w[key].tomb && w[key].ts == old(clock) + 1 == clock
      ensures data != [] ==> State() == WriteLocal(old(State()), key, nodeId, nodeId, None, data)
    {
      if data == [] { return -1; }
      if Stream(nodeId).Room(key) { RawReadBack(State(), key, data); }
      rc := Write(key, nodeId, None, data);
    }

    /** fleece_state_manager_set_shared */
    method SetShared(name: seq<Byte>, data: seq<Byte>) returns (rc: int)
      requires Valid() && clock + 1 < TWO_64 && 0 !in name && |data| < TWO_32
      modifies this, fields
      ensures Valid() && SameElsewhere(old(State()), State(), SHARED_OWNER)
      ensures Stream(SHARED_OWNER) == Lww.SetShared(old(Stream(SHARED_OWNER)), nodeId, name, data)
      ensures rc == if name != [] && data != [] && old(Stream(SHARED_OWNER)).Room(HashName(name)) then 0 else -1
      ensures var was, now, k := old(Stream(SHARED_OWNER).world), Stream(SHARED_OWNER).world, HashName(name);
              now == if rc == 0 then was[k := Rec(StoredName(name), nodeId, old(clock) + 1, false, data)] else was
      ensures clock == if name == [] || data == [] then old(clock) else old(clock) + 1
      ensures currentTick == old(currentTick)
      ensures lastWriteTick == if name == [] || data == [] then old(lastWriteTick) else Some(currentTick)
    {
      hide HashName, View, Slots.Valid, WriteLocal;
      if name == [] || data == [] { return -1; }
      ghost var t := State();
      TidyOf(t);
      SetSharedRefines(t, nodeId, name, data);
      var key := HashNameLoop(name);
      lastWriteTick := Some(currentTick);
      rc := Write(key, SHARED_OWNER, Some(name), data);
    }

    /** remove, remove_named and remove_shared share this body. */
    method BuryField(key: U32, owner: U64, origin: Option<U64>) returns (rc: int)
      requires Valid() && clock + 1 < TWO_64
      requires owner != SHARED_OWNER ==> origin.None?
      modifies this`clock, fields
      ensures Valid() && State() == Bury(old(State()), key, owner, origin)
      ensures rc == if old(Stream(owner)).Live(key) then 0 else -1
      ensures rc == -1 ==> State() == old(State())
    {
      hide View, Slots.Valid;
      BuryValid(State(), key, owner, origin);
      ViewHas(fields[..], key, owner);
      var i := FindSlot(key, owner);
      if i == fields.Length || fields[i].tomb { return -1; }
      clock := clock + 1;
      fields[i] := fields[i].(data := [], tomb := true, ts := clock,
                              origin := if origin.Some? then origin.value else fields[i].origin);
      rc := 0;
    }

    method RemoveRaw(key: U32) returns (rc: int)
      requires Valid() && clock + 1 < TWO_64
      modifies this`clock, fields
      ensures Valid() && State() == Bury(old(State()), key, nodeId, None)
      ensures rc == if old(Stream(nodeId)).Live(key) then 0 else -1
    {
      rc := BuryField(key, nodeId, None);
    }

    /** fleece_state_manager_remove_shared */
    method RemoveShared(name: seq<Byte>) returns (rc: int)
      requires Valid() && clock + 1 < TWO_64
      modifies this, fields
      ensures Valid() && SameElsewhere(old(State()), State(), SHARED_OWNER)
      ensures Stream(SHARED_OWNER) == Lww.RemoveShared(old(Stream(SHARED_OWNER)), nodeId, name)
      ensures rc == if old(Stream(SHARED_OWNER)).Live(HashName(name)) then 0 else -1
      ensures var was, k := old(Stream(SHARED_OWNER).world), HashName(name);
              if k in was && !was[k].tomb
              then Stream(SHARED_OWNER).world == was[k := Rec(was[k].name, nodeId, old(clock) + 1, true, [])]
              else State() == old(State())
      ensures currentTick == old(currentTick)
      ensures lastWriteTick == if rc == 0 then Some(currentTick) else old(lastWriteTick)
    {
      hide HashName, View, Slots.Valid, Bury;
      RemoveSharedRefines(State(), nodeId, name);
      var key := HashNameLoop(name);
      rc := BuryField(key, SHARED_OWNER, Some(nodeId));
      if rc == 0 { lastWriteTick := Some(currentTick); }
    }

    /** fleece_state_manager_set_shared_cas; an absent expectation means "only if absent". */
    method SetSharedCas(name: seq<Byte>, expected: Option<seq<Byte>>, data: seq<Byte>) returns (rc: int)
      requires Valid() && clock + 1 < TWO_64 && 0 !in name && |data| < TWO_32
      modifies this, fields
      ensures Valid() && SameElsewhere(old(State()), State(), SHARED_OWNER)
      ensures Stream(SHARED_OWNER) == Lww.SetSharedCas(old(Stream(SHARED_OWNER)), nodeId, name, expected, data)
      ensures rc == if name == [] || data == [] then -1
                    else if !CasHolds(old(Stream(SHARED_OWNER)), HashName(name), expected) then 1
                    else if old(Stream(SHARED_OWNER)).Room(HashName(name)) then 0 else -1
      // The write happens exactly over the expected bytes, or over nothing live when none are expected.
      ensures var was, k := old(Stream(SHARED_OWNER).world), HashName(name);
              var matches := match expected
                             case Some(e) => k in was && !was[k].tomb && was[k].data == e
                             case None => k !in was || was[k].tomb;
              && (rc == 0 ==> matches && Stream(SHARED_OWNER).world
                                         == was[k := Rec(StoredName(name), nodeId, old(clock) + 1, false, data)])
              && (rc == 1 <==> name != [] && data != [] && !matches)
              && (rc == 1 ==> State() == old(State()))
      ensures rc == 0 ==> clock == old(clock) + 1
      ensures currentTick == old(currentTick)
      ensures lastWriteTick == if rc == 0 then Some(currentTick) else old(lastWriteTick)
    {
      hide HashName, View, Slots.Valid, WriteLocal;
      if name == [] || data == [] { return -1; }
      ghost var t := State();
      TidyOf(t);
      SetSharedRefines(t, nodeId, name, data);
      var key := HashNameLoop(name);
      CasRefines(t, key, expected);
      var i := FindSlot(key, SHARED_OWNER);
      var live := i < fields.Length && !fields[i].tomb;
      if (expected.None? && live) || (expected.Some? && (!live || fields[i].data != expected.value)) { return 1; }
      rc := Write(key, SHARED_OWNER, Some(name), data);
      if rc == 0 { lastWriteTick := Some(currentTick); }
    }

    /** merge_shared for the shared stream, merge_named for a peer's own stream. */
    method MergeField(owner: U64, r: Rec) returns (rc: int)
      requires Valid() && 0 !in r.name && |r.data| < TWO_32
      requires owner != SHARED_OWNER ==> r.origin == owner
      modifies this`fieldCount, this`clock, fields
      ensures Valid() && SameElsewhere(old(State()), State(), owner)
      ensures State() == Merge(old(State()), owner, r)
      ensures if owner == nodeId then State() == old(State()) else Stream(owner) == MergeRec(old(Stream(owner)), r)
      ensures rc == if owner != nodeId && Mergeable(r) && old(Stream(owner)).Room(HashName(r.name)) then 0 else -1
      // The newer of two versions is stored, on equal timestamps the one of the larger origin; the
      // clock rises to the arriving timestamp.
      ensures var was, now, k := old(Stream(owner).world), Stream(owner).world, HashName(r.name);
              owner != nodeId && r.name != [] && (r.tomb || r.data != []) ==>
                && clock == (if old(clock) > r.ts then old(clock) else r.ts)
                && now == if k in was && (r.ts < was[k].ts || (r.ts == was[k].ts && r.origin <= was[k].origin)) then was
                          else if k !in was && old(fieldCount) >= CAPACITY then was
                          else was[k := Rec(StoredName(r.name), r.origin, r.ts, r.tomb, if r.tomb then [] else r.data)]
    {
      hide HashName, View, Slots.Valid, Slots.Upsert, Tidy, Packed, SameElsewhere;
      ghost var t := State();
      TidyOf(t);
      MergeValid(t, owner, r);
      MergeRefines(t, owner, r);
      MergeRoom(t, owner, r);
      if r.name == [] || (!r.tomb && r.data == []) || owner == nodeId { return -1; }
      if clock < r.ts { clock := r.ts; }
      var key := HashNameLoop(r.name);
      var i := FindSlot(key, owner);
      if i < fields.Length {
        if fields[i].ts > r.ts { return 0; }
        if fields[i].ts == r.ts && fields[i].origin >= r.origin { return 0; }
      }
      var ok := UpsertField(key, owner, r.origin, Some(r.name), r.data, r.ts, r.tomb);
      rc := if ok then 0 else -1;
    }

    /** The loop of compact. */
    method MoveKept() returns (w: nat)
      modifies fields
      ensures w == |KeptOf(old(fields[..]))|
      ensures Table(nodeId, fields[..], w, clock) == Compact(old(State()))
    {
      hide KeptOf;
      ghost var s, kept := fields[..], [];
      KeptSnoc(s, 0);
      w := 0;
      for r := 0 to fields.Length
        invariant kept == KeptOf(s[..r]) && w == |kept| <= r
        invariant forall i :: 0 <= i < w ==> fields[i] == kept[i]
        invariant forall i :: w <= i < r ==> fields[i] == if Kept(s[i]) then EMPTY_SLOT else s[i]
        invariant forall i :: r <= i < fields.Length ==> fields[i] == s[i]
      {
        KeptSnoc(s, r);
        if Kept(fields[r]) {
          kept := kept + [s[r]];
          if w != r {
            fields[w] := fields[r];
            fields[r] := EMPTY_SLOT;
          }
          w := w + 1;
        }
      }
      assert s[..fields.Length] == s;
      assert fields[..] == Compact(old(State())).slots;
    }

    /** fleece_state_manager_compact: the shared stream is untouched, and the table stays packed
        exactly when no unnamed tombstone sits at or behind the number of kept slots. */
    method CompactFields()
      requires Valid()
      modifies this`fieldCount, fields
      ensures Valid() && State() == Compact(old(State()))
      ensures View(fields[..], SHARED_OWNER) == old(View(fields[..], SHARED_OWNER))
      ensures forall o :: Survives(old(View(fields[..], o)), View(fields[..], o))
      ensures var s := old(fields[..]);
              fieldCount == |set i: nat | i < |s| && s[i].used && (!s[i].tomb || s[i].name != [])|
      ensures forall i :: 0 <= i < fieldCount ==> fields[i].used && (!fields[i].tomb || fields[i].name != [])
      ensures Packed(State()) <==> old(forall i :: |KeptOf(fields[..])| <= i < CAPACITY && fields[i].used ==>
                                       Kept(fields[i]))
    {
      hide View, Slots.Valid, Packed, Tidy, Compact, KeptOf, Unique, Survives;
      ghost var t := State();
      TidyOf(t);
      UniqueSlots(t);
      LengthOf(t);
      CompactShared(t);
      CompactValid(t);
      forall o: U64 ensures Survives(View(t.slots, o), View(Compact(t).slots, o)) {
        CompactView(t, o);
      }
      CompactPacked(t);
      CompactCount(t);
      fieldCount := MoveKept();
    }

    // ----- Digest and high-water marks -----------------------------------------------------

    /** compute_stream_digest */
    method StreamDigest(owner: U64) returns (d: U64)
      requires Valid()
      ensures d == SlotSum(fields[..], owner, |fields[..]|)
      ensures d == DigestOf(LiveView(Stream(owner).world))
    {
      hide RecHash, View, Slots.Valid, LiveView, DigestOf, Unique, Tidy;
      TidyOf(State());
      UniqueSlots(State());
      d := 0;
      for i := 0 to fields.Length
        invariant d == SlotSum(fields[..], owner, i)
      {
        if Counted(fields[i], owner) {
          var f := fields[i];
          var h := EntryDigest(f.name, f.origin, f.ts, f.data);
          HashOf(f);
          d := (d + h) % TWO_64;
        }
      }
      DigestOfSlots(fields[..], owner);
    }

    method MaxTimestamp(sel: Slot -> bool) returns (hw: U64)
      ensures hw == HighWater(fields[..], sel, |fields[..]|)
    {
      hw := 0;
      for i := 0 to fields.Length
        invariant hw == HighWater(fields[..], sel, i)
      {
        if sel(fields[i]) && fields[i].ts > hw { hw := fields[i].ts; }
      }
    }

    /** fleece_state_manager_shared_at_least; tombstones count as present. */
    method SharedAtLeast(key: U32, ts: U64) returns (have: bool)
      ensures have <==> key in Stream(SHARED_OWNER).world && Stream(SHARED_OWNER).world[key].ts >= ts
    {
      ViewHas(fields[..], key, SHARED_OWNER);
      var i := FindSlot(key, SHARED_OWNER);
      have := i < fields.Length && fields[i].ts >= ts;
    }

    // ----- Exporting ---------------------------------------------------------------------

    /** The sizing pass of an exporter. */
    method Select(sel: Slot -> bool, shared: bool) returns (take: seq<bool>, bytes: nat, count: nat)
      requires Sized(fields[..])
      ensures |take| == fields.Length && forall i :: 0 <= i < |take| ==> take[i] == sel(fields[i])
      ensures bytes == TakenBytes(fields[..], take, |take|, shared) && count == |Taken(fields[..], take, |take|)|
    {
      hide RecordSize, Encodable;
      take, bytes, count := [], 0, 0;
      for n := 0 to fields.Length
        invariant |take| == n && forall i :: 0 <= i < n ==> take[i] == sel(fields[i])
        invariant bytes == TakenBytes(fields[..], take, n, shared) && count == |Taken(fields[..], take, n)|
      {
        var hit := sel(fields[n]);
        TakenPrefix(fields[..], take, take + [hit], n, shared);
        take := take + [hit];
        if hit {
          assert Encodable(RecOf(fields[..][n]));
          bytes := bytes + RecordSize(RecOf(fields[n]), shared);
          count := count + 1;
        }
      }
    }

    /** The record loop of the writing pass. */
    method WriteTaken(buf: array<Byte>, pos: nat, take: seq<bool>, shared: bool) returns (next: nat)
      requires buf != fields as object && Sized(fields[..]) && |take| == fields.Length
      requires forall r :: r in Taken(fields[..], take, |take|) ==> Encodable(r)
      requires pos + TakenBytes(fields[..], take, |take|, shared) <= buf.Length
      modifies buf
      ensures next == pos + TakenBytes(fields[..], take, |take|, shared)
      ensures buf[..next] == old(buf[..pos]) + EncRecords(Taken(fields[..], take, |take|), shared)
    {
      hide EncRecords, EncRecord, RecordSize, Encodable, Taken, Sized;
      ghost var s, pre := fields[..], buf[..pos];
      next := pos;
      TakenSnoc(s, take, 0, shared);
      for n := 0 to fields.Length
        invariant fields[..] == s
        invariant forall r :: r in Taken(s, take, n) ==> Encodable(r)
        invariant next == pos + TakenBytes(s, take, n, shared) <= buf.Length
        invariant buf[..next] == pre + EncRecords(Taken(s, take, n), shared)
      {
        TakenSnoc(s, take, n, shared);
        TakenLess(s, take, n + 1, |take|, shared);
        if take[n] {
          assert Encodable(RecOf(s[n]));
          Assoc(pre, EncRecords(Taken(s, take, n), shared), EncRecord(RecOf(s[n]), shared));
          next := WriteRecord(buf, next, RecOf(fields[n]), shared);
        }
      }
    }

    /** The writing pass: header, then every marked slot, into a buffer of `size` bytes. */
    method WriteFrame(take: seq<bool>, owner: U64, hw: U64, digest: U64, count: U64, size: nat)
        returns (frame: seq<Byte>)
      requires Sized(fields[..])
      requires |take| == fields.Length && count == |Taken(fields[..], take, |take|)|
      requires |EncHeader(nodeId, owner, hw, digest, count)|
               + TakenBytes(fields[..], take, |take|, owner == SHARED_OWNER) <= size
      ensures forall r :: r in Taken(fields[..], take, |take|) ==> Encodable(r)
      ensures frame == EncFrame(nodeId, owner, hw, digest, Taken(fields[..], take, |take|))
      ensures |frame| <= size
    {
      hide EncHeader, EncRecords, RecordSize, Encodable, Taken, TakenBytes;
      TakenEncodable(fields[..], take, |take|);
      var buf := new Byte[size];
      var pos := WriteHeader(buf, nodeId, owner, hw, digest, count);
      pos := WriteTaken(buf, pos, take, owner == SHARED_OWNER);
      frame := buf[..pos];
    }

    /** export_fields_since: every named field of `owner` newer than `since`, in slot order. */
    method ExportSince(owner: U64, since: U64) returns (frame: seq<Byte>, hw: U64, digest: U64, take: seq<bool>)
      requires Valid()
      ensures |take| == fields.Length && forall r :: r in Taken(fields[..], take, |take|) ==> Encodable(r)
      ensures forall i :: 0 <= i < |take| ==> (take[i] <==> NamedBy(owner)(fields[i]) && fields[i].ts > since)
      ensures frame == EncFrame(nodeId, owner, hw, digest, Taken(fields[..], take, |take|))
      ensures digest == DigestOf(LiveView(Stream(owner).world))
      ensures hw == HighWater(fields[..], NamedBy(owner), |fields[..]|)
    {
      hide EncFrame, RecordSize, Encodable, Slots.Valid, View, LiveView, DigestOf, Tidy, SlotSum, HighWater;
      TidyOf(State());
      hw := MaxTimestamp(NamedBy(owner));
      digest := StreamDigest(owner);
      var bytes, count;
      var newer := (f: Slot) => f.used && f.owner == owner && f.name != [] && f.ts > since;
      take, bytes, count := Select(newer, owner == SHARED_OWNER);
      assert count <= fields.Length == CAPACITY;
      var size := 3 + UintSize(5) + UintSize(nodeId) + UintSize(owner) + UintSize(hw) + UintSize(digest) + bytes
          + UintSize(count);
      HeaderSize(nodeId, owner, hw, digest, count);
      frame := WriteFrame(take, owner, hw, digest, count, size);
    }

    /** Collects the eligible slots and sorts them into packing order. */
    method PackingOrder(since: U64) returns (order: seq<nat>)
      ensures Order(fields[..], since, order)
    {
      hide Eligible;
      var s := fields[..];
      var a := new nat[fields.Length];
      var n := 0;
      for i := 0 to fields.Length
        invariant n <= i && fields[..] == s
        invariant a[..n] == EligibleList(s, since, i)
      {
        if Eligible(fields[i], since) {
          a[n] := i;
          n := n + 1;
        }
      }
      InsertionSort.SortArray(a, n, LaterExport(s));
      order := a[..n];
      SortedIsOrder(s, since);
    }

    /** The packing loop: carries records in order until one does not fit. */
    method Pack(cap: nat, order: seq<nat>) returns (take: seq<bool>, k: nat, body: nat, high: U64)
      requires Sized(fields[..])
      requires forall e :: 0 <= e < |order| ==> order[e] < fields.Length
      modifies fields
      ensures Sized(old(fields[..])) && Window(old(fields[..]), order, HeaderBudget(nodeId), cap, k)
      ensures fields[..] == Mark(old(fields[..]), Carried(order, k), clock)
      ensures |take| == fields.Length && forall i :: 0 <= i < |take| ==> (take[i] <==> i in Carried(order, k))
      ensures body == HeaderBudget(nodeId) + Load(old(fields[..]), order, k)
      ensures high == HighCarried(old(fields[..]), order, k)
    {
      hide RecordSize, Encodable, HeaderBudget, Mark, Carried, Load;
      ghost var s := fields[..];
      NothingCarried(s, order, clock);
      take := seq(fields.Length, _ => false);
      k, body, high := 0, HeaderBudget(nodeId), 0;
      while k < |order|
        invariant k <= |order|
        invariant fields[..] == Mark(s, Carried(order, k), clock)
        invariant |take| == |s| && forall i :: 0 <= i < |s| ==> (take[i] <==> i in Carried(order, k))
        invariant body == HeaderBudget(nodeId) + Load(s, order, k)
        invariant forall j :: 2 <= j <= k ==> HeaderBudget(nodeId) + Load(s, order, j) <= cap
        invariant high == HighCarried(s, order, k)
      {
        var i := order[k];
        CarriedSnoc(s, order, k, clock);
        assert RecOf(fields[i]) == RecOf(s[i]);
        var size := RecordSize(RecOf(fields[i]), true);
        if k > 0 && body + size > cap { break; }
        if fields[i].ts > high { high := fields[i].ts; }
        ghost var before := fields[..];
        fields[i] := fields[i].(lastExport := clock);
        take := take[i := true];
        body := body + size;
        assert fields[..] == before[i := before[i].(lastExport := clock)];
        k := k + 1;
      }
    }

    /** The lowest timestamp left behind. */
    method LowestLeft(ghost s: seq<Slot>, order: seq<nat>, k: nat) returns (low: U64)
      requires k <= |order| && |s| == fields.Length && forall e :: 0 <= e < |order| ==> order[e] < |s|
      requires forall i :: 0 <= i < |s| ==> fields[i].ts == s[i].ts
      ensures low == LowLeft(s, order, k)
    {
      low := NONE_LEFT;
      for e := k to |order|
        invariant LowLeft(s, order, k) == var rest := LowLeft(s, order, e); if low < rest then low else rest
      {
        if fields[order[e]].ts < low { low := fields[order[e]].ts; }
      }
    }

    /** fleece_state_manager_export_shared_delta_bounded. */
    method ExportBounded(since: U64, cap: nat)
      returns (frame: seq<Byte>, included: U64, order: seq<nat>, k: nat, hw: U64, digest: U64, take: seq<bool>)
      requires Valid()
      modifies fields
      ensures Valid() && Sized(old(fields[..])) && Order(old(fields[..]), since, order)
      ensures Window(old(fields[..]), order, HeaderBudget(nodeId), cap, k)
      ensures fields[..] == Mark(old(fields[..]), Carried(order, k), clock)
      ensures included == WatermarkOf(old(fields[..]), order, k)
      ensures |take| == fields.Length && forall i :: 0 <= i < |take| ==> (take[i] <==> i in Carried(order, k))
      ensures forall r :: r in Taken(old(fields[..]), take, |take|) ==> Encodable(r)
      ensures frame == EncFrame(nodeId, SHARED_OWNER, hw, digest, Taken(old(fields[..]), take, |take|))
      ensures digest == DigestOf(LiveView(Stream(SHARED_OWNER).world))
      ensures hw == HighWater(fields[..], OwnedBy(SHARED_OWNER), |fields[..]|)
      ensures k <= 1 || |frame| <= cap + 3
    {
      hide RecordSize, Encodable, Slots.Valid, View, LiveView, DigestOf, Tidy, SlotSum, Mark, EncFrame, Taken,
           TakenBytes, Load, HighCarried, LowLeft, EncHeader, Carried, Window, Sized, HeaderBudget, Eligible,
           HighWater;
      ghost var t, s := State(), fields[..];
      TidyOf(t);
      order := PackingOrder(since);
      OrderBasics(s, since, order);
      hide Order;
      var body, high;
      take, k, body, high := Pack(cap, order);
      WindowBound(s, order, HeaderBudget(nodeId), cap, k);
      MarkValid(t, order, k);
      CarriedFrame(s, clock, order, k, take);
      var low := LowestLeft(s, order, k);
      included := if low != NONE_LEFT && low - 1 < high then low - 1 else high;
      hw := MaxTimestamp(OwnedBy(SHARED_OWNER));
      digest := StreamDigest(SHARED_OWNER);
      TidyOf(State());
      HeaderFits(nodeId, hw, digest, k);
      frame := WriteFrame(take, SHARED_OWNER, hw, digest, k, 3 + body);
    }

    /** fleece_state_manager_count_new_shared */
    method CountNewShared(since: U64) returns (count: nat)
      ensures count == |EligibleSet(fields[..], since)|
    {
      ghost var s := fields[..];
      count := 0;
      ghost var found: set<nat> := {};
      for i := 0 to fields.Length
        invariant found == (set j: nat | j < i && Eligible(s[j], since)) && count == |found|
      {
        if Eligible(fields[i], since) {
          found := found + {i};
          count := count + 1;
        }
      }
      assert found == EligibleSet(s, since);
    }

    // ----- Repair replies ------------------------------------------------------------------

    /** fleece_state_manager_export_shared_index */
    method ExportIndex() returns (frame: seq<Byte>)
      requires Valid()
      ensures frame == EncIndexReply(nodeId, IndexOf(fields[..], |fields[..]|))
    {
      hide EncPrefix, EncEntry, EncEntries, Slots.Valid;
      LengthOf(State());
      var count := 0;
      for i := 0 to fields.Length
        invariant count == |IndexOf(fields[..], i)|
      {
        if LiveShared(fields[i]) { count := count + 1; }
      }
      PrefixSize(nodeId, count);
      var buf := new Byte[3 + UintSize(3) + 1 + UintSize(nodeId) + UintSize(count) + count * 15];
      var pos: nat := WritePrefix(buf, 1, nodeId, count);
      ghost var s, head := fields[..], EncPrefix(1, nodeId, count);
      ghost var left := count;
      assert head + EncEntries(IndexOf(s, 0)) == head by { NoEntries(); }
      for i := 0 to fields.Length
        invariant fields[..] == s && 0 <= pos <= buf.Length && left == count - |IndexOf(s, i)| >= 0
        invariant pos + left * 15 <= buf.Length
        invariant buf[..pos] == head + EncEntries(IndexOf(s, i))
      {
        IndexLess(s, i + 1, |s|);
        if LiveShared(fields[i]) {
          EncEntriesSnoc(IndexOf(s, i), IndexEntry(s[i].key, s[i].ts));
          pos := WriteEntry(buf, pos, IndexEntry(fields[i].key, fields[i].ts));
          left := left - 1;
        } else {
          assert IndexOf(s, i + 1) == IndexOf(s, i);
        }
      }
      frame := buf[..pos];
    }

    /** fleece_state_manager_export_shared_by_hash: the reply holds at most one record or fits
        the cap, whatever was asked. */
    method ExportByHash(hashes: seq<U32>) returns (frame: seq<Byte>, hw: U64, digest: U64, base: nat)
      requires Valid() && |hashes| < TWO_32
      ensures Sized(fields[..])
      ensures var rs := Reply(fields[..], hashes, base, VALUE_FRAME_CAP);
              && (forall r :: r in rs ==> Encodable(r)) && |rs| < TWO_64
              && frame == EncFrame(nodeId, SHARED_OWNER, hw, digest, rs)
              && (|rs| <= 1 || |frame| <= VALUE_FRAME_CAP + 3)
      ensures digest == DigestOf(LiveView(Stream(SHARED_OWNER).world))
      ensures hw == HighWater(fields[..], LiveShared, |fields[..]|) && base == ValueBudget(nodeId, digest, |hashes|)
    {
      hide RecordSize, Encodable, Slots.Valid, View, LiveView, DigestOf, Tidy, SlotSum, EncFrame, EncHeader, Sized,
           Unique, UintSize, HighWater;
      TidyOf(State());
      UniqueSlots(State());
      LengthOf(State());
      digest := StreamDigest(SHARED_OWNER);
      hw := MaxTimestamp(LiveShared);
      base := ValueBudget(nodeId, digest, |hashes|);
      var take: seq<bool>, body: nat, matched: nat := [], base, 0;
      for n := 0 to fields.Length
        invariant Pick(take, body, matched) == PickUpTo(fields[..], hashes, base, VALUE_FRAME_CAP, n)
      {
        EncodableAt(fields[..], n);
        var size := RecordSize(RecOf(fields[n]), true);
        if Wanted(fields[n], hashes) && !(matched > 0 && body + size > VALUE_FRAME_CAP) {
          take, body, matched := take + [true], body + size, matched + 1;
        } else {
          take := take + [false];
        }
      }
      PickProperties(fields[..], hashes, base, VALUE_FRAME_CAP, fields.Length);
      PickBound(fields[..], hashes, base, VALUE_FRAME_CAP);
      UintSizeMonotone(matched, |hashes|);
      HeaderSize(nodeId, SHARED_OWNER, hw, digest, matched);
      hide PickUpTo, Taken, TakenBytes;
      frame := WriteFrame(take, SHARED_OWNER, hw, digest, matched, 3 + body - UintSize(|hashes|) + UintSize(matched));
    }

    // ----- Importing ---------------------------------------------------------------------

    /** The record loop of import_impl. */
    method ImportRecords(frame: seq<Byte>, start: nat, owner: U64, count: nat) returns (complete: bool)
      requires Valid() && |frame| < TWO_32
      modifies this`fieldCount, this`clock, fields
      ensures Valid()
      ensures var p := ReadRecords(frame, start, owner, count);
              complete == p.complete && State() == MergeEach(old(State()), owner, p.recs)
    {
      hide ReadRecord, HashName, Slots.Valid, Merge, View, MergeRec;
      ghost var t, all := State(), ReadRecords(frame, start, owner, count);
      ghost var taken: seq<Rec> := [];
      var pos, i := start, 0;
      CountBound(t);
      while i < count
        invariant 0 <= i <= count && Valid() && fieldCount <= fields.Length
        invariant t.count <= |t.slots| && State() == MergeEach(t, owner, taken)
        invariant all.recs == taken + ReadRecords(frame, pos, owner, count - i).recs
        invariant all.complete == ReadRecords(frame, pos, owner, count - i).complete
        decreases if pos < |frame| then |frame| - pos else 0, count - i
      {
        var r := ReadRecordLoop(frame, pos, owner);
        if r.NoRec? {
          assert all.recs == taken;
          return false;
        }
        ghost var rest := ReadRecords(frame, r.next, owner, count - i - 1).recs;
        assert taken + ([r.rec] + rest) == (taken + [r.rec]) + rest;
        MergeEachSnoc(t, owner, taken, r.rec);
        var _ := MergeField(owner, r.rec);
        CountBound(State());
        taken := taken + [r.rec];
        pos, i := r.next, i + 1;
      }
      assert all.recs == taken;
      complete := true;
    }

    /** import_impl. Whatever the bytes, the store ends up as before the call merged with the
        records of the frame's longest well-formed prefix (Wire.LongestPrefix). */
    method Import(frame: seq<Byte>) returns (rc: int, behindSelf: bool, behindShared: bool, sender: U64)
      requires Valid() && |frame| < TWO_32
      modifies this`fieldCount, this`clock, fields
      ensures Valid()
      ensures match ParseFrame(frame, nodeId)
              case Rejected => rc == -1 && State() == old(State())
              case Parsed(s, o, d, recs, complete) =>
                && sender == s && rc == (if complete then 0 else -1)
                && SameElsewhere(old(State()), State(), o)
                && Stream(o) == MergeAll(old(Stream(o)), recs)
                && (complete ==>
                      var differs := DigestOf(LiveView(Stream(o).world)) != d;
                      && (behindShared <==> o == SHARED_OWNER && differs)
                      && (behindSelf <==> o != SHARED_OWNER && differs))
    {
      hide ReadHead, ReadRecords, HashName, Slots.Valid, View, MergeAll, MergeEach, LiveView, DigestOf, SlotSum;
      rc, behindSelf, behindShared, sender := -1, false, false, 0;
      if |frame| < 3 || frame[..3] != MAGIC { return; }
      var a := ReadHeadLoop(frame, 3);
      if a.NoHead? || a.major != 4 || a.value != 5 { return; }
      var s := ReadHeadLoop(frame, a.next);
      if s.NoHead? || s.major != 0 { return; }
      if s.value == nodeId || s.value == SHARED_OWNER { return; }
      sender := s.value;
      var o := ReadHeadLoop(frame, s.next);
      if o.NoHead? || o.major != 0 { return; }
      if o.value != SHARED_OWNER && o.value == nodeId { return; }
      var h := ReadHeadLoop(frame, o.next);
      if h.NoHead? || h.major != 0 { return; }
      var d := ReadHeadLoop(frame, h.next);
      if d.NoHead? || d.major != 0 { return; }
      var c := ReadHeadLoop(frame, d.next);
      if c.NoHead? || c.major != 4 { return; }
      TidyOf(State());
      MergeEachRefines(State(), o.value, ReadRecords(frame, c.next, o.value, c.value).recs);
      var complete := ImportRecords(frame, c.next, o.value, c.value);
      if !complete { return; }
      var local := StreamDigest(o.value);
      behindSelf := o.value != SHARED_OWNER && local != d.value;
      behindShared := o.value == SHARED_OWNER && local != d.value;
      rc := 0;
    }
  }

  /** Two compare-and-sets with one expectation and nothing in between: if the first replaces the
      expected bytes by others, the second reports a mismatch and leaves the store alone. */
  method CasTwice(m: StateManager, name: seq<Byte>, e: seq<Byte>, data: seq<Byte>, data': seq<Byte>)
    returns (rc: int, rc': int)
    requires m.Valid() && m.clock + 2 < TWO_64 && 0 !in name && |data| < TWO_32 && |data'| < TWO_32
    requires data != e && data' != []
    modifies m, m.fields
    ensures m.Valid()
    ensures rc == 0 ==>
              && rc' == 1 && HashName(name) in m.Stream(SHARED_OWNER).world
              && m.Stream(SHARED_OWNER).world[HashName(name)].data == data && m.clock == old(m.clock) + 1
  {
    hide HashName, Slots.Valid, View, Lww.SetSharedCas, SameElsewhere;
    rc := m.SetSharedCas(name, Some(e), data);
    if rc != 0 { return rc, -1; }
    rc' := m.SetSharedCas(name, Some(e), data');
  }

  lemma TidyOf(t: Table)
    requires Slots.Valid(t)
    ensures Tidy(t) && Sized(t.slots)
  {
    forall i | 0 <= i < |t.slots| ensures Encodable(RecOf(t.slots[i])) {
      assert t.slots[i].used ==> SlotOk(t.slots[i], t.id, t.clock);
    }
  }

  /** A merge needs a slot exactly when the map has no entry for its key. */
  lemma MergeRoom(t: Table, owner: U64, r: Rec)
    requires Tidy(t)
    ensures var t1, key := t.(clock := Max(t.clock, r.ts)), HashName(r.name);
            && t.count <= |t.slots| && (Find(t.slots, key, owner) < |t.slots| <==> key in View(t.slots, owner))
            && (Slots.Upsert(t1, key, owner, r.origin, Some(r.name), r.data, r.ts, r.tomb).Some? <==>
                StreamOf(t, owner).Room(key))
  {
    hide HashName;
    var t1, key := t.(clock := Max(t.clock, r.ts)), HashName(r.name);
    assert Tidy(t1);
    ViewHas(t.slots, key, owner);
    hide View, Tidy;
    UpsertRefines(t1, key, owner, r.origin, Some(r.name), r.data, r.ts, r.tomb);
  }

  lemma CountBound(t: Table)
    requires Slots.Valid(t)
    ensures t.count <= |t.slots|
  {}

  lemma NothingCarried(s: seq<Slot>, order: seq<nat>, clock: U64)
    requires Sized(s)
    ensures Carried(order, 0) == {} && Mark(s, Carried(order, 0), clock) == s && Load(s, order, 0) == 0
  {}

  lemma CarriedSnoc(s: seq<Slot>, order: seq<nat>, k: nat, clock: U64)
    requires Sized(s) && k < |order| && order[k] < |s|
    ensures Carried(order, k + 1) == Carried(order, k) + {order[k]}
    ensures Load(s, order, k + 1) == Load(s, order, k) + RecordSize(RecOf(s[order[k]]), true)
    ensures var m := Mark(s, Carried(order, k), clock);
            && RecOf(m[order[k]]) == RecOf(s[order[k]])
            && Mark(s, Carried(order, k + 1), clock) == m[order[k] := m[order[k]].(lastExport := clock)]
  {
    hide RecordSize, Encodable, Mark;
    assert Carried(order, k + 1) == Carried(order, k) + {order[k]};
    hide Carried;
    MarkOne(s, Carried(order, k), order[k], clock);
  }

  lemma MarkOne(s: seq<Slot>, c: set<nat>, i: nat, clock: U64)
    requires i < |s|
    ensures var m := Mark(s, c, clock);
            RecOf(m[i]) == RecOf(s[i]) && Mark(s, c + {i}, clock) == m[i := m[i].(lastExport := clock)]
  {}

  lemma OrderBasics(s: seq<Slot>, since: U64, order: seq<nat>)
    requires Order(s, since, order)
    ensures forall e :: 0 <= e < |order| ==> order[e] < |s| && s[order[e]].used && s[order[e]].ts > 0
    ensures forall d, e :: 0 <= d < e < |order| ==> order[d] != order[e]
  {}

  lemma LengthOf(t: Table)
    requires Slots.Valid(t)
    ensures |t.slots| == CAPACITY
    ensures forall i :: 0 <= i < |t.slots| ==> 0 <= t.slots[i].key < TWO_32
  {}

  lemma PrefixSize(id: U64, count: U64)
    ensures |EncPrefix(1, id, count)| == 3 + UintSize(3) + 1 + UintSize(id) + UintSize(count)
  {}

  lemma NoEntries()
    ensures EncEntries([]) == []
  {}

  lemma {:induction false} IndexLess(s: seq<Slot>, n: nat, m: nat)
    requires n <= m <= |s|
    ensures |IndexOf(s, n)| <= |IndexOf(s, m)|
    decreases m
  {
    if n < m {
      IndexLess(s, n, m - 1);
    }
  }

  lemma EncodableAt(s: seq<Slot>, i: nat)
    requires Sized(s) && i < |s|
    ensures Encodable(RecOf(s[i]))
  {}

  lemma UintSizeMonotone(a: U64, b: U64)
    requires a <= b
    ensures UintSize(a) <= UintSize(b) <= 9
  {}

  lemma WindowBound(s: seq<Slot>, order: seq<nat>, base: nat, cap: nat, k: nat)
    requires Sized(s) && Window(s, order, base, cap, k)
    ensures k <= |order| && (k <= 1 || base + Load(s, order, k) <= cap)
  {}

  lemma MarkValid(t: Table, order: seq<nat>, k: nat)
    requires Slots.Valid(t) && k <= |order|
    requires forall e :: 0 <= e < |order| ==> order[e] < |t.slots| && t.slots[order[e]].used
    ensures Slots.Valid(t.(slots := Mark(t.slots, Carried(order, k), t.clock)))
    ensures forall i :: 0 <= i < |t.slots| ==> Mark(t.slots, Carried(order, k), t.clock)[i].ts == t.slots[i].ts
  {}

  lemma HeaderFits(id: U64, hw: U64, digest: U64, count: U64)
    requires count <= CAPACITY
    ensures |EncHeader(id, SHARED_OWNER, hw, digest, count)| <= 3 + HeaderBudget(id)
  {}

  /** The header budgets exceed the header only where the exporter counts the widest head: the mark,
      in a bounded delta also digest and count, in a value reply the count asked for. */
  lemma BudgetSlack(id: U64, hw: U64, digest: U64, count: U64, asked: U64)
    ensures var header := |EncHeader(id, SHARED_OWNER, hw, digest, count)|;
            && 3 + HeaderBudget(id) == header + (9 - UintSize(hw)) + (9 - UintSize(digest)) + (3 - UintSize(count))
            && 3 + ValueBudget(id, digest, asked) == header + (9 - UintSize(hw)) + (UintSize(asked) - UintSize(count))
  {
    HeaderSize(id, SHARED_OWNER, hw, digest, count);
  }

  lemma HeaderSize(sender: U64, owner: U64, hw: U64, digest: U64, count: U64)
    ensures |EncHeader(sender, owner, hw, digest, count)| ==
            3 + UintSize(5) + UintSize(sender) + UintSize(owner) + UintSize(hw) + UintSize(digest) + UintSize(count)
  {}

  lemma KeptSnoc(s: seq<Slot>, r: nat)
    requires r <= |s|
    ensures r == 0 ==> KeptOf(s[..r]) == []
    ensures r < |s| ==> KeptOf(s[..r + 1]) == KeptOf(s[..r]) + if Kept(s[r]) then [s[r]] else []
  {
    if r < |s| {
      assert s[..r + 1][..r] == s[..r];
    }
  }

  lemma HashOf(f: Slot)
    ensures RecHash(RecOf(f)) == EntryHash(f.name, f.origin, f.ts, f.data)
  {}
}
