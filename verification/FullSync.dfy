/** Importing another node's full shared export: the wire path is the join of the two maps, and
    the digest check reports "behind" only for a receiver that held something the sender does
    not show. */
module FullSync {
  import opened Bytes
  import opened Hashing
  import opened Lww
  import opened Wire
  import opened Slots
  import opened Digest
  import opened Bounded
  import opened Frames
  import opened Repair

  /** Marks set by export_fields_since for the shared stream with cutoff zero. */
  ghost predicate FullMarks(s: seq<Slot>, take: seq<bool>)
  {
    && |take| == |s|
    && forall i :: 0 <= i < |s| ==>
         (take[i] <==> s[i].used && s[i].owner == SHARED_OWNER && s[i].name != [] && s[i].ts > 0)
  }

  /** Real timestamps start at 1, so the full export carries every stored record. */
  lemma FullExportIsWorld(s: seq<Slot>, take: seq<bool>)
    requires Wellformed(s) && FullMarks(s, take)
    requires forall k :: k in View(s, SHARED_OWNER) ==> View(s, SHARED_OWNER)[k].ts > 0
    ensures forall r :: r in Taken(s, take, |s|) <==> r in View(s, SHARED_OWNER).Values
  {
    hide HashName;
    var v := View(s, SHARED_OWNER);
    TakenMembers(s, take, |s|);
    forall r | r in Taken(s, take, |s|) ensures r in v.Values {
      var i :| 0 <= i < |s| && take[i] && RecOf(s[i]) == r;
      ViewAt(s, i);
    }
    forall r | r in v.Values ensures r in Taken(s, take, |s|) {
      var k :| k in v && v[k] == r;
      ViewHas(s, k, SHARED_OWNER);
      var i := Find(s, k, SHARED_OWNER);
      assert Proper(RecOf(s[i]));
      assert take[i];
    }
  }

  lemma WorldOfSlots(s: seq<Slot>)
    requires Wellformed(s)
    ensures Keyed(View(s, SHARED_OWNER))
    ensures forall k :: k in View(s, SHARED_OWNER) ==> Proper(View(s, SHARED_OWNER)[k])
  {
    hide HashName;
    forall k | k in View(s, SHARED_OWNER)
      ensures HashName(View(s, SHARED_OWNER)[k].name) == k && Proper(View(s, SHARED_OWNER)[k])
    {
      ViewHas(s, k, SHARED_OWNER);
    }
  }

  /** Parsing and merging the encoded full export joins the two maps. */
  lemma FullSyncIsJoin(s: seq<Slot>, take: seq<bool>, p: Replica, me: U64, peer: U64, hw: U64, digest: U64)
    requires Wellformed(s) && FullMarks(s, take) && |s| == CAPACITY
    requires forall k :: k in View(s, SHARED_OWNER) ==> View(s, SHARED_OWNER)[k].ts > 0
    requires me != peer && peer != SHARED_OWNER
    requires Keyed(p.world) && RoomFor(p, View(s, SHARED_OWNER).Keys)
    requires Coherent(p.world.Values + View(s, SHARED_OWNER).Values)
    ensures forall r :: r in Taken(s, take, |s|) ==> Encodable(r)
    ensures var f := ParseFrame(EncFrame(peer, SHARED_OWNER, hw, digest, Taken(s, take, |s|)), me);
            && f == Parsed(peer, SHARED_OWNER, digest, Taken(s, take, |s|), true)
            && MergeAll(p, f.recs).world == Join(p.world, View(s, SHARED_OWNER))
  {
    hide HashName, View, Wellformed, Taken, RoomFor, Coherent, Keyed, ParseFrame, EncFrame, MergeAll, Join, FullMarks,
         Encodable, InStream, Proper;
    MarksLength(s, take);
    var v, rs := View(s, SHARED_OWNER), Taken(s, take, |s|);
    FullExportIsWorld(s, take);
    WorldOfSlots(s);
    ExportedKeys(v, rs);
    ProperEncodes(rs);
    FrameRoundTrip(me, peer, SHARED_OWNER, hw, digest, rs);
    MergeAllIsJoin(p, v, rs);
  }

  lemma ProperEncodes(rs: seq<Rec>)
    requires forall r :: r in rs ==> Proper(r)
    ensures forall r :: r in rs ==> InStream(r, SHARED_OWNER) && Encodable(r)
  {}

  lemma MarksLength(s: seq<Slot>, take: seq<bool>)
    requires FullMarks(s, take)
    ensures |take| == |s|
  {}

  /** The receiver then shows exactly what the sender shows if and only if it held nothing
      extra and live, and nothing newer where either copy is live. */
  lemma JoinShowsSender(a: World, v: World, k: U32)
    requires Named(a) && Named(v) && Coherent(a.Values + v.Values)
    ensures (k in LiveView(Join(a, v)) <==> k in LiveView(v))
            && (k in LiveView(v) ==> LiveView(Join(a, v))[k] == LiveView(v)[k])
            <==> (k in a ==> if k in v then !Beats(a[k], v[k]) || (a[k].tomb && v[k].tomb) else a[k].tomb)
  {
    if k in a && k in v {
      assert a[k] in a.Values + v.Values && v[k] in a.Values + v.Values;
      BeatsTotal(a[k], v[k]);
    }
  }

  lemma NotBehindIff(a: World, v: World)
    requires Named(a) && Named(v) && Coherent(a.Values + v.Values)
    ensures LiveView(Join(a, v)) == LiveView(v) <==>
            forall k :: k in a ==> if k in v then !Beats(a[k], v[k]) || (a[k].tomb && v[k].tomb) else a[k].tomb
    ensures LiveView(Join(a, v)) == LiveView(v) ==> DigestOf(LiveView(Join(a, v))) == DigestOf(LiveView(v))
  {
    hide LiveView, Join, Named, Beats, Coherent;
    forall k: U32
      ensures (k in LiveView(Join(a, v)) <==> k in LiveView(v))
              && (k in LiveView(v) ==> LiveView(Join(a, v))[k] == LiveView(v)[k])
              <==> (k in a ==> if k in v then !Beats(a[k], v[k]) || (a[k].tomb && v[k].tomb) else a[k].tomb)
    {
      JoinShowsSender(a, v, k);
    }
    if forall k :: k in a ==> if k in v then !Beats(a[k], v[k]) || (a[k].tomb && v[k].tomb) else a[k].tomb {
      assert forall k :: k in LiveView(Join(a, v)) <==> k in LiveView(v);
      assert LiveView(Join(a, v)) == LiveView(v);
    }
  }
}
