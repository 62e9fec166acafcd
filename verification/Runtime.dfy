/** The runtime's gossip and repair machinery around one state manager: the receive handlers,
    the deferred queue, and the gossip phase of the main loop with one call per tick. */
module Runtime {
  import opened Bytes
  import opened Hashing
  import opened Lww
  import opened Wire
  import opened Slots
  import opened SlotMaps
  import opened Digest
  import opened Bounded
  import opened Frames
  import opened Control
  import opened Repair
  import opened Store
  import opened Schedule
  import opened TxQueue

  /** FLEECE_MAX_RESYNC_TARGETS, FLEECE_GOSSIP_FRAME_BYTES */
  const MAX_TARGETS: nat := 32
  const GOSSIP_FRAME_CAP: nat := 320

  // ----- The target table, as values -----------------------------------------------------------

  /** The entry of a peer at or after `i`, or the table length. */
  function PeerFrom(ts: seq<Target>, id: U64, i: nat): (k: nat)
    requires i <= |ts|
    ensures i <= k <= |ts| && (k < |ts| ==> ts[k].used && ts[k].node == id)
    ensures forall j :: i <= j < k ==> !(ts[j].used && ts[j].node == id)
    decreases |ts| - i
  {
    if i == |ts| || (ts[i].used && ts[i].node == id) then i else PeerFrom(ts, id, i + 1)
  }

  function UnusedFrom(ts: seq<Target>, i: nat): (k: nat)
    requires i <= |ts|
    ensures i <= k <= |ts| && (k < |ts| ==> !ts[k].used) && forall j :: i <= j < k ==> ts[j].used
    decreases |ts| - i
  {
    if i == |ts| || !ts[i].used then i else UnusedFrom(ts, i + 1)
  }

  /** resync_target_for_id: the peer's entry, created in the first unused slot if needed. */
  function PlaceOf(ts: seq<Target>, id: U64): (k: nat)
    ensures k <= |ts|
  {
    var k := PeerFrom(ts, id, 0);
    if k < |ts| then k else UnusedFrom(ts, 0)
  }

  function Admit(ts: seq<Target>, id: U64, tick: nat): (r: seq<Target>)
    ensures |r| == |ts|
  {
    var k := PlaceOf(ts, id);
    if k == |ts| || (ts[k].used && ts[k].node == id) then ts else ts[k := Target(true, id, tick, false, false, 0)]
  }

  /** A gossip frame of peer `id` was merged: a digest mismatch arms its flag, a match disarms
      it unless a handshake with that peer is in flight. */
  function Heard(ts: seq<Target>, id: U64, behind: bool, tick: nat): (r: seq<Target>)
    ensures |r| == |ts|
  {
    var k, ts' := PlaceOf(ts, id), Admit(ts, id, tick);
    if k == |ts| then ts'
    else ts'[k := ts'[k].(lastHeard := tick, need := behind || (ts'[k].need && ts'[k].awaiting))]
  }

  /** An index reply of peer `id` closes the handshake; an empty diff disarms the flag. */
  function Answered(ts: seq<Target>, id: U64, empty: bool, tick: nat): (r: seq<Target>)
    ensures |r| == |ts|
  {
    var k, ts' := PlaceOf(ts, id), Admit(ts, id, tick);
    if k == |ts| then ts' else ts'[k := ts'[k].(awaiting := false, need := ts'[k].need && !empty)]
  }

  /** A gossip frame of peer `id` refreshes the peer's entry: it needs repair exactly if the digests
      differ, or if it did before and a handshake is in flight. An unknown peer gets a fresh entry
      while one is free, and with no entry and none free nothing changes. */
  lemma HeardMeans(ts: seq<Target>, id: U64, behind: bool, tick: nat)
    ensures var r := Heard(ts, id, behind, tick);
            if exists j :: 0 <= j < |ts| && (!ts[j].used || ts[j].node == id)
            then exists k :: 0 <= k < |ts| && Refreshed(ts, r, id, k, tick)
                             && (r[k].need <==> behind || (Knows(ts, id) && ts[k].need && ts[k].awaiting))
                             && (r[k].awaiting <==> Knows(ts, id) && ts[k].awaiting)
                             && r[k].lastHeard == tick
            else r == ts
  {
    Place(ts, id);
  }

  /** An index reply of peer `id` ends the handshake; the peer still needs repair exactly if it did
      before and the reply left something to fetch. */
  lemma AnsweredMeans(ts: seq<Target>, id: U64, empty: bool, tick: nat)
    ensures var r := Answered(ts, id, empty, tick);
            if exists j :: 0 <= j < |ts| && (!ts[j].used || ts[j].node == id)
            then exists k :: 0 <= k < |ts| && Refreshed(ts, r, id, k, tick)
                             && (r[k].need <==> Knows(ts, id) && ts[k].need && !empty)
                             && !r[k].awaiting
                             && r[k].lastHeard == (if Knows(ts, id) then ts[k].lastHeard else tick)
            else r == ts
  {
    Place(ts, id);
  }

  /** The table has an entry for peer `id`. */
  ghost predicate Knows(ts: seq<Target>, id: U64)
  {
    exists j :: 0 <= j < |ts| && ts[j].used && ts[j].node == id
  }

  /** Entry `k` is the peer's, as before or taken from the free ones, and the only one changed. */
  ghost predicate Refreshed(ts: seq<Target>, r: seq<Target>, id: U64, k: nat, tick: nat)
    requires k < |ts|
  {
    && |r| == |ts| && r[k].used && r[k].node == id
    && (if Knows(ts, id) then ts[k].used && ts[k].node == id && r[k].lastReq == ts[k].lastReq
        else !ts[k].used && r[k].lastReq == 0)
    && forall j :: 0 <= j < |ts| && j != k ==> r[j] == ts[j]
  }

  lemma Place(ts: seq<Target>, id: U64)
    ensures var k := PlaceOf(ts, id);
            && (k < |ts| <==> exists j :: 0 <= j < |ts| && (!ts[j].used || ts[j].node == id))
            && (k < |ts| && Knows(ts, id) ==> ts[k].used && ts[k].node == id)
            && (k < |ts| && !Knows(ts, id) ==> !ts[k].used)
  {}

  /** One entry per peer. */
  ghost predicate OnePerPeer(ts: seq<Target>)
  {
    forall i, j :: 0 <= i < j < |ts| && ts[i].used && ts[j].used ==> ts[i].node != ts[j].node
  }

  lemma HandlersKeepOnePerPeer(ts: seq<Target>, id: U64, behind: bool, empty: bool, tick: nat)
    requires OnePerPeer(ts)
    ensures OnePerPeer(Heard(ts, id, behind, tick)) && OnePerPeer(Answered(ts, id, empty, tick))
  {
    Place(ts, id);
  }

  /** A peer that showed a differing digest is asked for its index: within eight quiet ticks unless
      a request to it is younger than that and unanswered, and within sixteen in any case. */
  lemma AskedAfterMismatch(ts: seq<Target>, id: U64, tick: nat, run: seq<Moment>) returns (k: nat)
    requires exists j :: 0 <= j < |ts| && (!ts[j].used || ts[j].node == id)
    requires forall j :: 0 <= j < |ts| ==> ts[j].lastReq <= tick
    requires Undisturbed(run) && |run| > 16 && tick <= run[0].tick
    requires run[0].targets == Heard(ts, id, true, tick) && |InNeed(run[0].targets)| <= 16
    ensures k < |run[0].targets| && run[0].targets[k].used && run[0].targets[k].node == id
    ensures exists n :: 0 <= n < 16 && k in Starts(run[n])
    ensures (exists n :: 0 <= n < 8 && k in Starts(run[n])) || (ts[k].awaiting && run[0].tick - ts[k].lastReq < 8)
  {
    hide Heard, Undisturbed, Starts, InNeed;
    HeardMeans(ts, id, true, tick);
    var r := run[0].targets;
    k :| 0 <= k < |ts| && Refreshed(ts, r, id, k, tick) && r[k].need
         && (r[k].awaiting <==> Knows(ts, id) && ts[k].awaiting);
    AskedWithinSixteen(run, k);
    if r[k].Due(run[0].tick) {
      ServedWithinEight(run, k);
    }
  }

  /** Handlers leave every other peer's entry alone. */
  lemma OthersUntouched(ts: seq<Target>, id: U64, behind: bool, empty: bool, tick: nat, j: nat)
    requires j < |ts| && ts[j].used && ts[j].node != id
    ensures Heard(ts, id, behind, tick)[j] == ts[j] && Answered(ts, id, empty, tick)[j] == ts[j]
  {}

  /** Both handlers are what the scheduling results allow between two ticks. */
  lemma HandlersAllowed(ts: seq<Target>, id: U64, behind: bool, empty: bool, tick: nat)
    ensures Handled(ts, Heard(ts, id, behind, tick)) && Handled(ts, Answered(ts, id, empty, tick))
  {}

  /** The address a reply goes to: the peer named in the frame, else where it came from. */
  function ReplyTo(origin: U64, source: Dest): Dest
  {
    if origin == 0 then source else Node(origin)
  }

  /** The gossip frame that answers a value request over the slots `s`. */
  ghost predicate ValueReply(id: U64, s: seq<Slot>, hashes: seq<U32>, digest: U64, reply: seq<Byte>)
  {
    Sized(s) && |hashes| < TWO_64 &&
    var rs := Reply(s, hashes, ValueBudget(id, digest, |hashes|), VALUE_FRAME_CAP);
    && |rs| < TWO_64 && (forall r :: r in rs ==> Encodable(r))
    && reply == EncFrame(id, SHARED_OWNER, HighWater(s, LiveShared, |s|), digest, rs)
    && (|rs| <= 1 || |reply| <= VALUE_FRAME_CAP + 3)
  }

  lemma TimestampsBelow(t: Table)
    requires Slots.Valid(t)
    ensures forall i :: 0 <= i < |t.slots| && t.slots[i].used ==> t.slots[i].ts <= t.clock
  {
    forall i | 0 <= i < |t.slots| && t.slots[i].used ensures t.slots[i].ts <= t.clock {
      assert SlotOk(t.slots[i], t.id, t.clock);
    }
  }

  lemma SomethingInWindow(s: seq<Slot>, since: U64, order: seq<nat>, base: nat, cap: nat, k: nat)
    requires Sized(s) && Order(s, since, order) && Window(s, order, base, cap, k) && |EligibleSet(s, since)| > 0
    ensures 0 < k <= |order|
  {
    var x :| x in EligibleSet(s, since);
    assert x in order;
  }

  class Runtime {
    const store: StateManager
    const targets: array<Target>
    const queue: array<Pending>
    var tick: nat
    var watermark: U64
    var dropped: nat

    ghost predicate Valid()
      reads this, store, store.fields, targets, queue
    {
      && targets.Length == MAX_TARGETS && queue.Length == QUEUE_SLOTS
      && store.Valid() && watermark <= store.clock
    }

    constructor (manager: StateManager)
      requires manager.Valid()
      ensures Valid() && store == manager && tick == 0 && watermark == 0
      ensures fresh(targets) && fresh(queue) && AllReadyAt(queue[..], 0)
      ensures forall i :: 0 <= i < targets.Length ==> !targets[i].used
    {
      store := manager;
      targets := new Target[MAX_TARGETS](_ => Target(false, 0, 0, false, false, 0));
      queue := new Pending[QUEUE_SLOTS](_ => Pending(false, Tx(Mesh, []), 0));
      tick, watermark, dropped := 0, 0, 0;
    }

    // ----- Table and queue ---------------------------------------------------------------

    method TargetFor(id: U64) returns (k: nat)
      modifies targets
      ensures k == PlaceOf(old(targets[..]), id) && targets[..] == Admit(old(targets[..]), id, tick)
    {
      k := 0;
      while k < targets.Length && !(targets[k].used && targets[k].node == id)
        invariant k <= targets.Length && PeerFrom(targets[..], id, 0) == PeerFrom(targets[..], id, k)
      {
        k := k + 1;
      }
      if k < targets.Length { return; }
      k := 0;
      while k < targets.Length && targets[k].used
        invariant k <= targets.Length && UnusedFrom(targets[..], 0) == UnusedFrom(targets[..], k)
      {
        k := k + 1;
      }
      if k < targets.Length {
        targets[k] := Target(true, id, tick, false, false, 0);
      }
    }

    method EnqueueTx(tx: Tx)
      modifies queue, this`dropped
      ensures queue[..] == Enqueue(old(queue[..]), tx, tick)
      ensures dropped == old(dropped) + if FreeFrom(old(queue[..]), 0) < queue.Length then 0 else 1
    {
      var i := 0;
      while i < queue.Length && queue[i].used
        invariant i <= queue.Length && FreeFrom(queue[..], 0) == FreeFrom(queue[..], i)
      {
        i := i + 1;
      }
      if i < queue.Length {
        queue[i] := Pending(true, tx, tick + 1);
      } else {
        dropped := dropped + 1;
      }
    }

    method FlushPending() returns (out: seq<Tx>)
      modifies queue
      ensures var f := Flush(old(queue[..]), tick, queue.Length);
              queue[..] == f.queue && out == f.out
    {
      ghost var q := queue[..];
      out := [];
      for i := 0 to queue.Length
        invariant queue[..] == Flush(q, tick, i).queue && out == Flush(q, tick, i).out
        invariant forall j :: i <= j < queue.Length ==> queue[j] == q[j]
      {
        if queue[i].used && tick >= queue[i].ready {
          out := out + [queue[i].tx];
          queue[i] := queue[i].(used := false);
        }
      }
    }

    /** fleece_state_manager_ticks_since_last_write >= QUIESCE_TICKS */
    predicate Quiet()
      reads this, store
    {
      store.lastWriteTick.None?
      || (store.currentTick >= store.lastWriteTick.value
          && store.currentTick - store.lastWriteTick.value >= QUIESCE_TICKS)
    }

    /** The target loop of runtime_send_resync_requests. */
    method ServeAll() returns (starts: seq<nat>, probes: seq<nat>)
      modifies targets
      ensures Pass(targets[..], starts, probes) == Serve(old(targets[..]), tick, Quiet(), targets.Length)
    {
      hide Quiet;
      ghost var ts := targets[..];
      var quiet := Quiet();
      starts, probes := [], [];
      for i := 0 to targets.Length
        invariant Pass(targets[..], starts, probes) == Serve(ts, tick, quiet, i)
        invariant forall j :: i <= j < targets.Length ==> targets[j] == ts[j]
      {
        ghost var before := targets[..];
        var t := targets[i];
        if t.used {
          if t.need && quiet && |starts| < STARTS_PER_TICK && (!t.awaiting || tick - t.lastReq >= RETRY_TICKS) {
            targets[i] := targets[i].(awaiting := true, lastReq := tick);
            starts := starts + [i];
          }
          if tick - t.lastHeard >= PROBE_TICKS {
            targets[i] := targets[i].(awaiting := true, lastHeard := tick);
            probes := probes + [i];
          }
        }
        assert targets[..] == before[i := targets[i]];
      }
    }

    /** runtime_send_resync_requests: flush, then one pass over the targets. */
    method SendResyncRequests() returns (flushed: seq<Tx>, starts: seq<nat>, probes: seq<nat>)
      modifies targets, queue
      ensures flushed == Flush(old(queue[..]), tick, queue.Length).out
      ensures queue[..] == Flush(old(queue[..]), tick, queue.Length).queue
      ensures Pass(targets[..], starts, probes) == Serve(old(targets[..]), tick, Quiet(), targets.Length)
      // At most two peers are asked, only when no shared write is younger than five ticks; each of
      // them needs repair and has no unanswered request younger than eight ticks, and such a peer
      // is passed over only when two others are asked.
      ensures |starts| <= 2
      ensures starts != [] ==>
                store.lastWriteTick.None? || store.currentTick - store.lastWriteTick.value >= 5
      ensures forall i: nat ::
                i < targets.Length ==>
                  var t := old(targets[..])[i];
                  var due := t.used && t.need && (!t.awaiting || tick - t.lastReq >= 8);
                  var quiet := store.lastWriteTick.None? || store.currentTick - store.lastWriteTick.value >= 5;
                  (i in starts ==> due) && (due && quiet && i !in starts ==> |starts| == 2)
      ensures forall i: nat :: i in probes <==>
                i < targets.Length && old(targets[..])[i].used && tick - old(targets[..])[i].lastHeard >= 100
    {
      hide Flush, Serve;
      flushed := FlushPending();
      ServeProperties(targets[..], tick, Quiet(), targets.Length);
      ServeProbes(targets[..], tick, Quiet(), targets.Length);
      starts, probes := ServeAll();
    }

    // ----- Receiving ------------------------------------------------------------------------

    /** import_and_track. A frame that does not import leaves the flags alone. */
    method ImportAndTrack(frame: seq<Byte>)
      requires Valid() && |frame| < TWO_32
      modifies store, store.fields, targets
      ensures Valid()
      ensures match ParseFrame(frame, store.nodeId)
              case Rejected => store.State() == old(store.State()) && targets[..] == old(targets[..])
              case Parsed(s, o, d, recs, complete) =>
                && store.Stream(o) == MergeAll(old(store.Stream(o)), recs)
                && targets[..] == if !complete then old(targets[..])
                                  else
                                    var behind := o == SHARED_OWNER && DigestOf(LiveView(store.Stream(o).world)) != d;
                                    Heard(old(targets[..]), s, behind, tick)
      // A digest that differs from the merged live view marks the sender's entry.
      ensures var f := ParseFrame(frame, store.nodeId);
              var was, now := old(targets[..]), targets[..];
              f.Parsed? && f.complete ==>
                if exists j :: 0 <= j < |was| && (!was[j].used || was[j].node == f.sender)
                then
                  var differs := f.owner == SHARED_OWNER && DigestOf(LiveView(store.Stream(f.owner).world)) != f.digest;
                  exists k :: 0 <= k < |was| && Refreshed(was, now, f.sender, k, tick)
                              && (now[k].need <==> differs || (Knows(was, f.sender) && was[k].need && was[k].awaiting))
                              && (now[k].awaiting <==> Knows(was, f.sender) && was[k].awaiting)
                              && now[k].lastHeard == tick
                else now == was
    {
      hide ParseFrame, MergeAll, DigestOf, LiveView, View, Slots.Valid, PlaceOf, Admit, SameElsewhere;
      ghost var f := ParseFrame(frame, store.nodeId);
      if f.Parsed? {
        MergeAllGrows(store.Stream(f.owner), f.recs);
      }
      var rc, _, behind, sender := store.Import(frame);
      if rc != 0 { return; }
      HeardMeans(targets[..], sender, behind, tick);
      hide Refreshed, Knows;
      var k := TargetFor(sender);
      if k < targets.Length {
        targets[k] := targets[k].(lastHeard := tick, need := behind || (targets[k].need && targets[k].awaiting));
      }
    }

    /** The diff loop of request_missing_keys. */
    method MissingKeys(entries: seq<IndexEntry>) returns (wanted: seq<U32>)
      ensures wanted == Missing(store.Stream(SHARED_OWNER).world, entries, MAX_FETCH)
    {
      hide View;
      ghost var w := store.Stream(SHARED_OWNER).world;
      wanted := [];
      var i := 0;
      while i < |entries| && |wanted| < MAX_FETCH
        invariant i <= |entries| && |wanted| <= MAX_FETCH
        invariant Missing(w, entries, MAX_FETCH) == wanted + Missing(w, entries[i..], MAX_FETCH - |wanted|)
      {
        assert entries[i..][1..] == entries[i + 1..];
        if entries[i].key <= 0xFFFF_FFFF {
          var have := store.SharedAtLeast(entries[i].key, entries[i].ts);
          if !have {
            ghost var rest := Missing(w, entries[i + 1..], MAX_FETCH - |wanted| - 1);
            assert wanted + ([entries[i].key] + rest) == wanted + [entries[i].key] + rest;
            wanted := wanted + [entries[i].key];
          }
        }
        i := i + 1;
      }
    }

    /** An index reply, with request_missing_keys: the handshake is over, and the peer stays marked
        exactly if it was and something is to be fetched. */
    method HandleIndexReply(origin: U64, entries: seq<IndexEntry>)
      requires Valid()
      modifies targets, queue, this`dropped
      ensures Valid() && tick == old(tick) && watermark == old(watermark)
      ensures var wanted := Missing(store.Stream(SHARED_OWNER).world, entries, MAX_FETCH);
              && targets[..] == Answered(old(targets[..]), origin, wanted == [], tick)
              && queue[..] == if wanted == [] then old(queue[..])
                              else Enqueue(old(queue[..]), Tx(if origin == 0 then Mesh else Node(origin),
                                                              EncValueRequest(store.nodeId, wanted)), tick)
      ensures var was, now := old(targets[..]), targets[..];
              if exists j :: 0 <= j < |was| && (!was[j].used || was[j].node == origin)
              then
                var wanted := Missing(store.Stream(SHARED_OWNER).world, entries, MAX_FETCH);
                exists k :: 0 <= k < |was| && Refreshed(was, now, origin, k, tick)
                            && (now[k].need <==> Knows(was, origin) && was[k].need && wanted != [])
                            && !now[k].awaiting
                            && now[k].lastHeard == (if Knows(was, origin) then was[k].lastHeard else tick)
              else now == was
    {
      hide EncValueRequest, Missing, View, Slots.Valid, Enqueue, PlaceOf, Admit, Refreshed, Knows;
      AnsweredMeans(targets[..], origin, Missing(store.Stream(SHARED_OWNER).world, entries, MAX_FETCH) == [], tick);
      var k := TargetFor(origin);
      if k < targets.Length {
        targets[k] := targets[k].(awaiting := false);
      }
      var wanted := MissingKeys(entries);
      if wanted != [] {
        EnqueueTx(Tx(ReplyTo(origin, Mesh), EncValueRequest(store.nodeId, wanted)));
      } else if k < targets.Length {
        targets[k] := targets[k].(need := false);
      }
    }

    /** handle_fx_frame. Replies go to the node named in the frame, else to where it came from; they
        are queued, never sent from here. */
    method HandleControl(frame: seq<Byte>, source: Dest)
      requires Valid()
      modifies targets, queue, this`dropped
      ensures Valid() && tick == old(tick) && watermark == old(watermark)
      ensures match ParseControl(frame)
              case BadControl => targets[..] == old(targets[..]) && queue[..] == old(queue[..])
              case IndexRequest(origin) =>
                && targets[..] == old(targets[..])
                && var index := EncIndexReply(store.nodeId, IndexOf(store.fields[..], CAPACITY));
                var dest := if origin == 0 then source else Node(origin);
                queue[..] == Enqueue(old(queue[..]), Tx(dest, index), tick)
              case ValueRequest(origin, hashes) =>
                && targets[..] == old(targets[..])
                && (hashes == [] ==> queue[..] == old(queue[..]))
                && (hashes != [] ==> exists reply ::
                      && ValueReply(store.nodeId, store.fields[..], hashes,
                                    DigestOf(LiveView(store.Stream(SHARED_OWNER).world)), reply)
                      && var dest := if origin == 0 then source else Node(origin);
                      queue[..] == Enqueue(old(queue[..]), Tx(dest, reply), tick))
              case IndexReply(origin, entries) =>
                var wanted := Missing(store.Stream(SHARED_OWNER).world, entries, MAX_FETCH);
                && targets[..] == Answered(old(targets[..]), origin, wanted == [], tick)
                && queue[..] == if wanted == [] then old(queue[..])
                                else Enqueue(old(queue[..]), Tx(if origin == 0 then Mesh else Node(origin),
                                                                EncValueRequest(store.nodeId, wanted)), tick)
    {
      hide ParseControl, EncIndexReply, EncValueRequest, IndexOf, Missing, EncFrame, DigestOf, LiveView, View,
           Slots.Valid, Enqueue, Answered, Sized, Reply, HighWater, ValueBudget, Refreshed, Knows;
      ghost var q := queue[..];
      match ParseControl(frame)
      case BadControl =>
      case IndexRequest(origin) =>
        LengthOf(store.State());
        var index := store.ExportIndex();
        EnqueueTx(Tx(ReplyTo(origin, source), index));
      case ValueRequest(origin, hashes) =>
        if hashes != [] {
          var reply, hw, digest, base := store.ExportByHash(hashes);
          EnqueueTx(Tx(ReplyTo(origin, source), reply));
          assert queue[..] == Enqueue(q, Tx(if origin == 0 then source else Node(origin), reply), tick);
          assert ValueReply(store.nodeId, store.fields[..], hashes,
                            DigestOf(LiveView(store.Stream(SHARED_OWNER).world)), reply);
        }
      case IndexReply(origin, entries) =>
        HandleIndexReply(origin, entries);
    }

    // ----- Gossip ------------------------------------------------------------------------------

    /** One bounded delta: only eligible records are carried, and one left out stays eligible
        for the new watermark. */
    method SendDelta() returns (frame: seq<Byte>, take: seq<bool>)
      requires Valid() && EligibleSet(store.fields[..], watermark) != {}
      modifies store.fields, this`watermark
      ensures Valid() && old(watermark) <= watermark
      ensures View(store.fields[..], SHARED_OWNER) == old(View(store.fields[..], SHARED_OWNER))
      ensures |take| == store.fields.Length && Announces(frame, store.nodeId, store.fields[..], take)
      ensures exists i :: 0 <= i < |take| && take[i]
      ensures forall i :: 0 <= i < |take| && take[i] ==> i in EligibleSet(old(store.fields[..]), old(watermark))
      ensures store.clock < NONE_LEFT ==>
                forall i: nat :: i in EligibleSet(old(store.fields[..]), old(watermark)) ==>
                  (i < |take| && take[i]) || i in EligibleSet(old(store.fields[..]), watermark)
    {
      hide Slots.Valid, View, DigestOf, LiveView, EncFrame, Mark, WatermarkOf, Window, Taken, EligibleSet, Encodable,
           HighWater, Sized, HeaderBudget;
      ghost var s, clock := store.fields[..], store.clock;
      TimestampsBelow(store.State());
      LengthOf(store.State());
      var included, order, k, hw, digest;
      frame, included, order, k, hw, digest, take := store.ExportBounded(watermark, GOSSIP_FRAME_CAP);
      SomethingInWindow(s, watermark, order, HeaderBudget(store.nodeId), GOSSIP_FRAME_CAP, k);
      ExportSafe(s, clock, watermark, order, k);
      if clock < NONE_LEFT { NoTops(s, clock, watermark, order, k); }
      CarriedEligible(s, watermark, order, k);
      MarkKeepsView(s, Carried(order, k), clock);
      TakenUnmarked(s, Carried(order, k), clock, take);
      hide Order, Carried;
      watermark := included;
    }

    /** A header-only frame carrying the digest of the live view. */
    method SendBeacon() returns (frame: seq<Byte>, take: seq<bool>)
      requires Valid()
      modifies store.fields
      ensures Valid() && store.fields[..] == old(store.fields[..])
      ensures |take| == store.fields.Length && Announces(frame, store.nodeId, store.fields[..], take)
      ensures forall i :: 0 <= i < |take| ==> !take[i]
    {
      hide Slots.Valid, View, DigestOf, LiveView, EncFrame, Mark, Window, Taken, EligibleSet, Encodable, HighWater,
           Sized, HeaderBudget, Order, Carried;
      ghost var s, clock := store.fields[..], store.clock;
      LengthOf(store.State());
      var unused, order, k, hw, digest;
      frame, unused, order, k, hw, digest, take := store.ExportBounded(NONE_LEFT, 0);
      WindowBound(s, order, HeaderBudget(store.nodeId), 0, k);
      NothingAbove(s, order, k, clock);
    }

    /** The gossip phase of one tick: a bounded delta when one is due and there is news, else a
        beacon when that is due, else nothing. `take` marks the slots carried. */
    method GossipPhase(gossipEvery: nat, beaconEvery: nat) returns (frame: Option<seq<Byte>>, take: seq<bool>)
      requires Valid() && gossipEvery > 0 && beaconEvery > 0
      modifies store.fields, this`watermark
      ensures Valid() && old(watermark) <= watermark
      ensures View(store.fields[..], SHARED_OWNER) == old(View(store.fields[..], SHARED_OWNER))
      ensures |take| == store.fields.Length
      ensures var s := old(store.fields[..]);
              var news := tick % gossipEvery == 0 && EligibleSet(s, old(watermark)) != {};
              && (frame.Some? <==> news || (tick + store.nodeId) % TWO_32 % beaconEvery == 0)
              && (frame.Some? ==> Announces(frame.value, store.nodeId, store.fields[..], take))
              && (!news ==> watermark == old(watermark) && store.fields[..] == s)
              && (!news ==> forall i :: 0 <= i < |take| ==> !take[i])
              && (news ==> exists i :: 0 <= i < |take| && take[i])
              && (forall i :: 0 <= i < |take| && take[i] ==> i in EligibleSet(s, old(watermark)))
              && (store.clock < NONE_LEFT ==>
                    forall i: nat :: i in EligibleSet(s, old(watermark)) ==>
                      (i < |take| && take[i]) || i in EligibleSet(s, watermark))
    {
      hide Valid, View, EligibleSet, Announces;
      frame, take := None, seq(store.fields.Length, _ => false);
      var news := store.CountNewShared(watermark);
      if tick % gossipEvery == 0 && news > 0 {
        var data;
        data, take := SendDelta();
        frame := Some(data);
      } else if (tick + store.nodeId) % TWO_32 % beaconEvery == 0 {
        var data;
        data, take := SendBeacon();
        frame := Some(data);
      }
    }
  }

  /** A gossip frame over the slots `s`: the live view as a digest, and exactly the marked records. */
  ghost predicate Announces(frame: seq<Byte>, id: U64, s: seq<Slot>, take: seq<bool>)
    requires |take| == |s|
  {
    var rs := Taken(s, take, |take|);
    && |rs| < TWO_64 && (forall r :: r in rs ==> Encodable(r))
    && frame == EncFrame(id, SHARED_OWNER, HighWater(s, OwnedBy(SHARED_OWNER), |s|),
                         DigestOf(LiveView(View(s, SHARED_OWNER))), rs)
  }

  /** Export marks are not part of a record. */
  lemma TakenUnmarked(s: seq<Slot>, carried: set<nat>, clock: U64, take: seq<bool>)
    requires |take| == |s|
    ensures Taken(Mark(s, carried, clock), take, |take|) == Taken(s, take, |take|)
  {
    MarkSame(s, carried, clock, 0);
    TakenSame(s, Mark(s, carried, clock), take, |take|);
  }

  lemma CarriedEligible(s: seq<Slot>, since: U64, order: seq<nat>, k: nat)
    requires Order(s, since, order) && k <= |order|
    ensures forall i :: i in Carried(order, k) ==> i < |s| && i in EligibleSet(s, since)
    ensures k > 0 ==> exists i :: i in Carried(order, k)
  {
    assert k > 0 ==> order[0] in Carried(order, k);
  }

  /** No timestamp is above the beacon's cutoff, so a beacon carries and marks nothing. */
  lemma NothingAbove(s: seq<Slot>, order: seq<nat>, k: nat, clock: U64)
    requires Order(s, NONE_LEFT, order) && k <= |order|
    ensures (forall i :: i !in Carried(order, k)) && Mark(s, Carried(order, k), clock) == s
  {
    assert order != [] ==> order[0] in EligibleSet(s, NONE_LEFT);
  }
}
