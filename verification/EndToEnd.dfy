/** The synchronisation paths from one node's slots to another's, through the real encoders,
    queues and parsers: a full sync, and one round of the repair handshake. */
module EndToEnd {
  import opened Bytes
  import opened Cbor
  import opened Hashing
  import opened Lww
  import opened Wire
  import opened Slots
  import opened SlotMaps
  import opened Digest
  import opened Bounded
  import opened Frames
  import opened Control
  import opened Repair
  import opened FullSync
  import opened Store
  import opened TxQueue
  import R = Runtime
  import GossipRun
  import Sums

  // ----- Where the slots come from ---------------------------------------------------------------

  /** Every state of a gossip run has slots the synchronisation claims apply to. */
  lemma RunsAreWellformed(g: GossipRun.State)
    requires GossipRun.Inv(g)
    ensures Wellformed(g.t.slots)
  {
    TidyOf(g.t);
    UniqueSlots(g.t);
    hide HashName, Tidy, Unique, Sized;
    forall i | 0 <= i < |g.t.slots| && g.t.slots[i].used && g.t.slots[i].owner == SHARED_OWNER
      ensures Proper(RecOf(g.t.slots[i])) && g.t.slots[i].key == HashName(g.t.slots[i].name)
    {
      ViewAt(g.t.slots, i);
      assert SlotOk(g.t.slots[i], g.t.id, g.t.clock);
      assert g.t.id != SHARED_OWNER by { NodeId(g.t); }
    }
  }

  // ----- Full sync ---------------------------------------------------------------------------------

  /** The marks of a full shared export. */
  ghost function AllShared(s: seq<Slot>): seq<bool>
  {
    seq(|s|, i requires 0 <= i < |s| => s[i].used && s[i].owner == SHARED_OWNER && s[i].name != [] && s[i].ts > 0)
  }

  lemma FrameBound(sender: U64, hw: U64, digest: U64, s: seq<Slot>, take: seq<bool>)
    requires Sized(s) && |take| == |s| == CAPACITY && forall r :: r in Taken(s, take, |s|) ==> Encodable(r)
    ensures |EncFrame(sender, SHARED_OWNER, hw, digest, Taken(s, take, |s|))| <= 49 + TakenBytes(s, take, |s|, true)
  {
    hide Taken, TakenBytes, EncRecords, UintSize;
    TakenSize(s, take, |s|, true);
    HeaderSize(sender, SHARED_OWNER, hw, digest, |Taken(s, take, |s|)|);
    SmallHead();
  }

  /** One node's full shared export imported by another: the receiver's shared map becomes the
      join of the two, and it is told to be behind only if it held something live or newer that
      the sender does not show. */
  method SyncShared(source: StateManager, target: StateManager) returns (rc: int, behind: bool)
    requires source.Valid() && target.Valid() && source.nodeId != target.nodeId
    requires source != target && source.fields != target.fields
    requires Wellformed(source.fields[..]) && Keyed(target.Stream(SHARED_OWNER).world)
    requires forall k :: k in source.Stream(SHARED_OWNER).world ==> source.Stream(SHARED_OWNER).world[k].ts > 0
    requires RoomFor(target.Stream(SHARED_OWNER), source.Stream(SHARED_OWNER).world.Keys)
    requires Coherent(target.Stream(SHARED_OWNER).world.Values + source.Stream(SHARED_OWNER).world.Values)
    requires 49 + TakenBytes(source.fields[..], AllShared(source.fields[..]), |source.fields[..]|, true) < TWO_32
    modifies target, target.fields
    ensures target.Valid() && rc == 0
    ensures var a, v := old(target.Stream(SHARED_OWNER).world), source.Stream(SHARED_OWNER).world;
            && target.Stream(SHARED_OWNER).world == Join(a, v)
            && (LiveView(Join(a, v)) == LiveView(v) ==> !behind)
  {
    hide HashName, Slots.Valid, View, Wellformed, Taken, TakenBytes, RoomFor, Coherent, Keyed, ParseFrame, EncFrame,
         MergeAll, Join, Encodable, InStream, Proper, LiveView, DigestOf, HighWater, SameElsewhere;
    LengthOf(source.State());
    NodeId(source.State());
    ghost var s := source.fields[..];
    var frame, hw, digest, take := source.ExportSince(SHARED_OWNER, 0);
    assert take == AllShared(s);
    assert FullMarks(s, take);
    FullSyncIsJoin(s, take, target.Stream(SHARED_OWNER), target.nodeId, source.nodeId, hw, digest);
    SizedOf(s);
    FrameBound(source.nodeId, hw, digest, s, take);
    var behindSelf, sender;
    rc, behindSelf, behind, sender := target.Import(frame);
  }

  lemma SizedOf(s: seq<Slot>)
    requires Wellformed(s)
    ensures Sized(s)
  {}

  lemma NodeId(t: Table)
    requires Slots.Valid(t)
    ensures t.id != SHARED_OWNER
  {}

  // ----- One round of the handshake ----------------------------------------------------------------

  ghost predicate Idle(q: seq<Pending>)
  {
    forall i :: 0 <= i < |q| ==> !q[i].used
  }

  lemma {:induction false} IdleWaits(q: seq<Pending>, n: nat)
    requires Idle(q) && n <= |q|
    ensures Waiting(q, n) == multiset{}
  {
    if n > 0 { IdleWaits(q, n - 1); }
  }

  lemma FlushIdle(q: seq<Pending>, tick: nat)
    requires Idle(q)
    ensures Flush(q, tick, |q|).out == [] && Idle(Flush(q, tick, |q|).queue)
  {
    IdleWaits(q, |q|);
    FlushSendsReady(q, tick);
    FlushSlots(q, tick, |q|);
    NoneReady(q, tick, |q|);
    hide Flush, Waiting, ReadyBy;
    NoTx(Flush(q, tick, |q|).out);
  }

  lemma {:induction false} NoneReady(q: seq<Pending>, tick: nat, n: nat)
    requires Idle(q) && n <= |q|
    ensures ReadyBy(q, tick, n) == multiset{}
  {
    if n > 0 { NoneReady(q, tick, n - 1); }
  }

  /** One ready frame in an otherwise idle queue. */
  lemma FlushReady(q: seq<Pending>, p: Pending)
    requires Idle(q) && |q| > 0 && p.used
    ensures var f := Flush(q[0 := p], p.ready, |q|); f.out == [p.tx] && Idle(f.queue)
  {
    var r := q[0 := p];
    IdleWaits(q, |q|);
    WaitingUpdate(q, 0, p, |q|);
    AllReady(r, p.ready, |q|);
    FlushSendsReady(r, p.ready);
    FlushSlots(r, p.ready, |q|);
    hide Flush, Waiting, ReadyBy;
    OneTx(Flush(r, p.ready, |q|).out, p.tx);
  }

  lemma EnqueueFirst(q: seq<Pending>, tx: Tx, tick: nat)
    requires Idle(q) && |q| > 0
    ensures Enqueue(q, tx, tick) == q[0 := Pending(true, tx, tick + 1)]
  {}

  /** The next tick's flush of an idle queue sends nothing, and of a queue with one frame that
      frame; either way the queue is idle again. */
  lemma FlushOne(q: seq<Pending>, tx: Tx, tick: nat)
    requires Idle(q) && |q| > 0
    ensures var f := Flush(Enqueue(q, tx, tick), tick + 1, |q|); f.out == [tx] && Idle(f.queue)
    ensures var f := Flush(q, tick + 1, |q|); f.out == [] && Idle(f.queue)
  {
    hide Idle, Enqueue, Flush, Waiting;
    EnqueueFirst(q, tx, tick);
    FlushReady(q, Pending(true, tx, tick + 1));
    FlushIdle(q, tick + 1);
  }

  lemma OneTx(out: seq<Tx>, tx: Tx)
    requires multiset(out) == multiset{tx}
    ensures out == [tx]
  {
    assert |out| == |multiset(out)| == 1;
    assert out[0] in multiset(out);
  }

  lemma NoTx(out: seq<Tx>)
    requires multiset(out) == multiset{}
    ensures out == []
  {
    assert |out| == |multiset(out)|;
  }

  /** What a control frame makes a runtime send, and where to: handled in one tick, flushed in the
      next. A frame without a node id is answered to the mesh. */
  ghost predicate Answers(r: R.Runtime, frame: seq<Byte>, out: seq<Tx>)
    reads r, r.store, r.store.fields
  {
    var s := r.store.fields[..];
    match ParseControl(frame)
    case BadControl => out == []
    case IndexRequest(origin) =>
      && |s| == CAPACITY && |out| == 1 && out[0].dest == (if origin == 0 then Mesh else Node(origin))
      && out[0].data == EncIndexReply(r.store.nodeId, IndexOf(s, |s|))
    case ValueRequest(origin, hashes) =>
      if hashes == [] then out == []
      else
        && |out| == 1 && out[0].dest == (if origin == 0 then Mesh else Node(origin))
        && R.ValueReply(r.store.nodeId, s, hashes, DigestOf(LiveView(View(s, SHARED_OWNER))), out[0].data)
    case IndexReply(origin, entries) =>
      var wanted := Missing(View(s, SHARED_OWNER), entries, MAX_FETCH);
      if wanted == [] then out == []
      else
        && |out| == 1 && out[0].dest == (if origin == 0 then Mesh else Node(origin))
        && out[0].data == EncValueRequest(r.store.nodeId, wanted)
  }

  method Answer(r: R.Runtime, frame: seq<Byte>) returns (out: seq<Tx>)
    requires r.Valid() && Idle(r.queue[..])
    modifies r, r.targets, r.queue
    ensures r.Valid() && Idle(r.queue[..]) && Answers(r, frame, out)
  {
    hide ParseControl, EncIndexReply, EncValueRequest, IndexOf, Missing, DigestOf, LiveView, View, Slots.Valid,
         Enqueue, Flush, Idle, R.ValueReply, R.Answered;
    LengthOf(r.store.State());
    ghost var q, tick := r.queue[..], r.tick;
    r.HandleControl(frame, Mesh);
    ghost var tx := Queueing(r, frame, q, tick, r.queue[..]);
    FlushOne(q, tx, tick);
    r.tick := r.tick + 1;
    out := r.FlushPending();
  }

  /** The one frame that handling a control frame queues, if it queues one. */
  lemma Queueing(r: R.Runtime, frame: seq<Byte>, q: seq<Pending>, tick: nat, q': seq<Pending>) returns (tx: Tx)
    requires r.store.fields.Length == CAPACITY
    requires match ParseControl(frame)
             case BadControl => q' == q
             case IndexRequest(origin) =>
               var index := EncIndexReply(r.store.nodeId, IndexOf(r.store.fields[..], CAPACITY));
               q' == Enqueue(q, Tx(R.ReplyTo(origin, Mesh), index), tick)
             case ValueRequest(origin, hashes) =>
               if hashes == [] then q' == q
               else exists reply ::
                 && R.ValueReply(r.store.nodeId, r.store.fields[..], hashes,
                                 DigestOf(LiveView(r.store.Stream(SHARED_OWNER).world)), reply)
                 && q' == Enqueue(q, Tx(R.ReplyTo(origin, Mesh), reply), tick)
             case IndexReply(origin, entries) =>
               var wanted := Missing(r.store.Stream(SHARED_OWNER).world, entries, MAX_FETCH);
               q' == if wanted == [] then q
                     else Enqueue(q, Tx(R.ReplyTo(origin, Mesh), EncValueRequest(r.store.nodeId, wanted)), tick)
    ensures (q' == q && Answers(r, frame, [])) || (q' == Enqueue(q, tx, tick) && Answers(r, frame, [tx]))
  {
    hide ParseControl, EncIndexReply, EncValueRequest, IndexOf, Missing, DigestOf, LiveView, View, Enqueue,
         R.ValueReply;
    tx := Tx(Mesh, []);
    match ParseControl(frame)
    case BadControl =>
    case IndexRequest(origin) =>
      tx := Tx(R.ReplyTo(origin, Mesh), EncIndexReply(r.store.nodeId, IndexOf(r.store.fields[..], CAPACITY)));
    case ValueRequest(origin, hashes) =>
      if hashes != [] {
        var reply :|
          && R.ValueReply(r.store.nodeId, r.store.fields[..], hashes,
                          DigestOf(LiveView(r.store.Stream(SHARED_OWNER).world)), reply)
          && q' == Enqueue(q, Tx(R.ReplyTo(origin, Mesh), reply), tick);
        tx := Tx(R.ReplyTo(origin, Mesh), reply);
      }
    case IndexReply(origin, entries) =>
      var wanted := Missing(r.store.Stream(SHARED_OWNER).world, entries, MAX_FETCH);
      if wanted != [] {
        tx := Tx(R.ReplyTo(origin, Mesh), EncValueRequest(r.store.nodeId, wanted));
      }
  }

  /** A single record with a name and a payload that fit makes a frame that fits. */
  lemma OneRecordFits(sender: U64, hw: U64, digest: U64, rs: seq<Rec>)
    requires |rs| <= 1 && forall r :: r in rs ==> Encodable(r) && |r.name| <= NAME_CAP && |r.data| + 200 < TWO_32
    ensures |EncFrame(sender, SHARED_OWNER, hw, digest, rs)| < TWO_32
  {
    hide UintSize;
    HeaderSize(sender, SHARED_OWNER, hw, digest, |rs|);
    if |rs| == 1 {
      var r := rs[0];
      assert r in rs;
      assert EncRecords(rs, true) == EncRecords([], true) + EncRecord(r, true) by { assert rs[..0] == []; }
      assert RecordSize(r, true) <= 130 + |r.data|;
    }
  }

  /** The value reply parses back, and merging it makes the round progress. */
  lemma ValuesArrive(s: seq<Slot>, p: Replica, me: U64, peer: U64, digest: U64, reply: seq<Byte>)
    requires Wellformed(s) && |s| == CAPACITY && me != peer && peer != SHARED_OWNER
    requires Keyed(p.world) && RoomFor(p, View(s, SHARED_OWNER).Keys) && Gap(p.world, View(s, SHARED_OWNER)) != {}
    requires forall i :: 0 <= i < |s| ==> |s[i].data| + 200 < TWO_32
    requires R.ValueReply(peer, s, Missing(p.world, IndexOf(s, |s|), MAX_FETCH), digest, reply)
    ensures |reply| < TWO_32
    ensures var f, v := ParseFrame(reply, me), View(s, SHARED_OWNER);
            && f.Parsed? && f.owner == SHARED_OWNER
            && var q := MergeAll(p, f.recs);
            && Gap(q.world, v) < Gap(p.world, v) && Keyed(q.world) && RoomFor(q, v.Keys)
            && (Gap(q.world, v) == {} <==> OneReply(peer, s, digest, Gap(p.world, v)))
  {
    var hs := Missing(p.world, IndexOf(s, |s|), MAX_FETCH);
    var base := ValueBudget(peer, digest, |hs|);
    var rs := Reply(s, hs, base, VALUE_FRAME_CAP);
    ReplyMembers(s, hs, base, VALUE_FRAME_CAP);
    ReplyData(s, hs, base, VALUE_FRAME_CAP);
    hide HashName, View, Wellformed, RoomFor, Keyed, ParseFrame, EncFrame, MergeAll, Missing, IndexOf, HighWater,
         Reply, Gap, ValueBudget, GapMarks, TakenBytes;
    if |rs| <= 1 { OneRecordFits(peer, HighWater(s, LiveShared, |s|), digest, rs); }
    FrameRoundTrip(me, peer, SHARED_OWNER, HighWater(s, LiveShared, |s|), digest, rs);
    RoundProgress(p, s, base, VALUE_FRAME_CAP);
    OneRound(p, s, base, VALUE_FRAME_CAP);
    AsksForAll(p.world, s);
  }

  /** The values of a gap travel in one reply of node `id`: no more than 64, within 320 bytes unless
      there is just one. */
  ghost predicate OneReply(id: U64, s: seq<Slot>, digest: U64, gap: set<U32>)
    requires Sized(s)
  {
    |gap| <= 64 &&
    (|gap| <= 1 || ValueBudget(id, digest, |gap|) + TakenBytes(s, GapMarks(s, gap), |s|, true) <= 320)
  }

  lemma ReplyData(s: seq<Slot>, hs: seq<U32>, base: nat, cap: nat)
    requires Sized(s) && forall i :: 0 <= i < |s| ==> |s[i].data| + 200 < TWO_32
    ensures forall r :: r in Reply(s, hs, base, cap) ==> |r.data| + 200 < TWO_32
  {
    TakenMembers(s, PickUpTo(s, hs, base, cap, |s|).take, |s|);
    hide PickUpTo, Taken;
  }

  /** One lossless round of the repair handshake, through both runtimes: an index request, the
      index, a value request, the values. The requester's shared map makes the specified round,
      so what it lacks of the responder's live keys strictly shrinks until nothing is missing, and
      one round is enough exactly when those values fit into one reply; the responder's store is
      untouched. */
  method RepairRound(me: R.Runtime, peer: R.Runtime) returns (fetched: bool)
    requires me.Valid() && peer.Valid() && Idle(me.queue[..]) && Idle(peer.queue[..])
    requires me != peer && me.store != peer.store && me.store.fields != peer.store.fields
    requires me.queue != peer.queue && me.targets != peer.targets && me.store.nodeId != peer.store.nodeId
    requires Wellformed(peer.store.fields[..])
    requires forall i :: 0 <= i < peer.store.fields.Length ==> |peer.store.fields[i].data| + 200 < TWO_32
    requires Keyed(me.store.Stream(SHARED_OWNER).world)
    requires RoomFor(me.store.Stream(SHARED_OWNER), peer.store.Stream(SHARED_OWNER).world.Keys)
    modifies me, me.targets, me.queue, me.store, me.store.fields, peer, peer.targets, peer.queue
    ensures me.Valid() && peer.Valid() && Idle(me.queue[..]) && Idle(peer.queue[..])
    ensures var v := peer.store.Stream(SHARED_OWNER).world;
            var was, now := old(me.store.Stream(SHARED_OWNER)), me.store.Stream(SHARED_OWNER);
            && (fetched <==> Gap(was.world, v) != {})
            && (if fetched then Gap(now.world, v) < Gap(was.world, v) else now == was)
            && Sized(peer.store.fields[..])
            && (Gap(now.world, v) == {} <==>
                OneReply(peer.store.nodeId, peer.store.fields[..], DigestOf(LiveView(v)), Gap(was.world, v)))
            && Keyed(now.world) && RoomFor(now, v.Keys)
  {
    hide HashName, Slots.Valid, View, Wellformed, RoomFor, Keyed, ParseFrame, EncFrame, MergeAll, ParseControl,
         EncIndexReply, EncValueRequest, EncIndexRequest, IndexOf, Missing, DigestOf, LiveView, HighWater, Idle,
         Reply, Gap, Encodable, R.Heard, SameElsewhere, Frames.ValueBudget, GapMarks, TakenBytes, Sized;
    ghost var s, p := peer.store.fields[..], me.store.Stream(SHARED_OWNER);
    LengthOf(peer.store.State());
    IndexRequestRoundTrip(me.store.nodeId);
    var index := Answer(peer, EncIndexRequest(me.store.nodeId));
    IndexReplyRoundTrip(peer.store.nodeId, IndexOf(s, |s|));
    var request := Answer(me, index[0].data);
    SizedOf(s);
    MissingIsGap(p.world, s);
    fetched := request != [];
    if !fetched { return; }
    ghost var hs := Missing(p.world, IndexOf(s, |s|), MAX_FETCH);
    ValueRequestRoundTrip(me.store.nodeId, hs);
    var reply := Answer(peer, request[0].data);
    NodeId(peer.store.State());
    ValuesArrive(s, p, me.store.nodeId, peer.store.nodeId, DigestOf(LiveView(View(s, SHARED_OWNER))), reply[0].data);
    me.ImportAndTrack(reply[0].data);
  }

  /** Rounds until the diff is empty: at most as many as live keys were missing or older, and then
      none is. */
  method RepairAll(me: R.Runtime, peer: R.Runtime) returns (rounds: nat)
    requires me.Valid() && peer.Valid() && Idle(me.queue[..]) && Idle(peer.queue[..])
    requires me != peer && me.store != peer.store && me.store.fields != peer.store.fields
    requires me.queue != peer.queue && me.targets != peer.targets && me.store.nodeId != peer.store.nodeId
    requires Wellformed(peer.store.fields[..])
    requires forall i :: 0 <= i < peer.store.fields.Length ==> |peer.store.fields[i].data| + 200 < TWO_32
    requires Keyed(me.store.Stream(SHARED_OWNER).world)
    requires RoomFor(me.store.Stream(SHARED_OWNER), peer.store.Stream(SHARED_OWNER).world.Keys)
    modifies me, me.targets, me.queue, me.store, me.store.fields, peer, peer.targets, peer.queue
    ensures me.Valid() && peer.Valid() && Idle(me.queue[..]) && Idle(peer.queue[..])
    ensures Gap(me.store.Stream(SHARED_OWNER).world, peer.store.Stream(SHARED_OWNER).world) == {}
    ensures rounds <= |Gap(old(me.store.Stream(SHARED_OWNER).world), peer.store.Stream(SHARED_OWNER).world)|
  {
    hide Wellformed, RoomFor, Keyed, Idle, Gap, View, Slots.Valid;
    rounds := 0;
    ghost var v := peer.store.Stream(SHARED_OWNER).world;
    ghost var gap := Gap(me.store.Stream(SHARED_OWNER).world, v);
    ghost var most := |gap|;
    var fetched := true;
    while fetched
      invariant me.Valid() && peer.Valid() && Idle(me.queue[..]) && Idle(peer.queue[..])
      invariant Keyed(me.store.Stream(SHARED_OWNER).world) && RoomFor(me.store.Stream(SHARED_OWNER), v.Keys)
      invariant gap == Gap(me.store.Stream(SHARED_OWNER).world, v) && rounds + |gap| <= most && (!fetched ==> gap == {})
      decreases |gap|, fetched
    {
      fetched := RepairRound(me, peer);
      ghost var now := Gap(me.store.Stream(SHARED_OWNER).world, v);
      if fetched {
        Sums.SubsetSize(now, gap);
        rounds := rounds + 1;
      }
      gap := now;
    }
  }
}
