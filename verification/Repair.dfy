/** Targeted repair: a requester asks a responder for its index, fetches what it lacks or holds
    older, and merges the reply. What a round achieves, and what an empty diff does and does
    not certify. */
module Repair {
  import opened Bytes
  import opened Cbor
  import opened Hashing
  import opened Sums
  import opened Lww
  import opened Wire
  import opened Slots
  import opened Digest
  import opened Bounded
  import opened Frames
  import opened Control

  // ----- Index and diff --------------------------------------------------------------------

  /** The live shared entries of the first `n` slots, as an index reply lists them. */
  function IndexOf(s: seq<Slot>, n: nat): (es: seq<IndexEntry>)
    requires n <= |s|
    ensures |es| <= n
  {
    if n == 0 then [] else
      IndexOf(s, n - 1) + if LiveShared(s[n - 1]) then [IndexEntry(s[n - 1].key, s[n - 1].ts)] else []
  }

  /** The test of the diff: absent here, or older. Tombstones count, origins do not. */
  predicate Lacks(w: World, k: U32, ts: U64)
  {
    k !in w || w[k].ts < ts
  }

  /** request_missing_keys: the first `room` lacking keys, in index order. */
  function Missing(w: World, es: seq<IndexEntry>, room: nat): (hs: seq<U32>)
    ensures |hs| <= room
    decreases |es|
  {
    if es == [] || room == 0 then []
    else if es[0].key <= 0xFFFF_FFFF && Lacks(w, es[0].key, es[0].ts)
    then [es[0].key] + Missing(w, es[1..], room - 1)
    else Missing(w, es[1..], room)
  }

  /** Keys live at the responder that the requester lacks or holds older. */
  ghost function Gap(w: World, other: World): set<U32>
  {
    set k | k in other && !other[k].tomb && Lacks(w, k, other[k].ts)
  }

  lemma {:induction false} IndexMembers(s: seq<Slot>, n: nat)
    requires n <= |s|
    ensures forall e :: e in IndexOf(s, n) <==>
                        exists i :: 0 <= i < n && LiveShared(s[i]) && e == IndexEntry(s[i].key, s[i].ts)
  {
    if n > 0 {
      IndexMembers(s, n - 1);
    }
  }

  lemma {:induction false} MissingMembers(w: World, es: seq<IndexEntry>, room: nat)
    ensures forall h :: h in Missing(w, es, room) ==> exists e :: e in es && e.key == h && Lacks(w, h, e.ts)
    ensures room > 0 ==> forall e :: e in es && e.key <= 0xFFFF_FFFF && Lacks(w, e.key, e.ts) ==>
            Missing(w, es, room) != []
    decreases |es|
  {
    hide Lacks;
    if es != [] && room > 0 {
      var hit := es[0].key <= 0xFFFF_FFFF && Lacks(w, es[0].key, es[0].ts);
      MissingMembers(w, es[1..], if hit then room - 1 else room);
      assert es == [es[0]] + es[1..];
    }
  }

  /** The positions before `n` whose entry the requester lacks. */
  ghost function LackingAt(w: World, es: seq<IndexEntry>, n: nat): set<nat>
    requires n <= |es|
  {
    set i: nat | i < n && es[i].key <= 0xFFFF_FFFF && Lacks(w, es[i].key, es[i].ts)
  }

  lemma {:induction false} MissingSnoc(w: World, es: seq<IndexEntry>, e: IndexEntry, room: nat)
    ensures var hs := Missing(w, es, room);
            Missing(w, es + [e], room) ==
            if |hs| < room && e.key <= 0xFFFF_FFFF && Lacks(w, e.key, e.ts) then hs + [e.key] else hs
    decreases |es|
  {
    hide Lacks;
    if es != [] && room > 0 {
      var hit := es[0].key <= 0xFFFF_FFFF && Lacks(w, es[0].key, es[0].ts);
      assert (es + [e])[1..] == es[1..] + [e];
      MissingSnoc(w, es[1..], e, if hit then room - 1 else room);
    } else if room > 0 {
      assert (es + [e])[1..] == [];
    }
  }

  /** The diff asks for every lacking entry when there is room for all of them, and otherwise for
      the first ones in index order. */
  lemma MissingExact(w: World, es: seq<IndexEntry>, room: nat)
    ensures var hs, lacking := Missing(w, es, room), LackingAt(w, es, |es|);
            && |hs| == (if |lacking| <= room then |lacking| else room)
            && forall j :: j in lacking && |LackingAt(w, es, j)| < room ==>
                 |LackingAt(w, es, j)| < |hs| && hs[|LackingAt(w, es, j)|] == es[j].key
  {
    hide Missing, Lacks;
    assert es[..|es|] == es;
    MissingCount(w, es, room, |es|);
    forall j | j in LackingAt(w, es, |es|) && |LackingAt(w, es, j)| < room
      ensures var hs := Missing(w, es, room);
              |LackingAt(w, es, j)| < |hs| && hs[|LackingAt(w, es, j)|] == es[j].key
    {
      MissingPlace(w, es, room, |es|, j);
    }
  }

  lemma {:induction false} MissingCount(w: World, es: seq<IndexEntry>, room: nat, n: nat)
    requires n <= |es|
    ensures var lacking := |LackingAt(w, es, n)|;
            |Missing(w, es[..n], room)| == if lacking <= room then lacking else room
  {
    hide Lacks, Missing;
    if n == 0 {
      assert LackingAt(w, es, 0) == {};
      NothingMissing(w, room);
    } else {
      hide LackingAt;
      MissingCount(w, es, room, n - 1);
      assert es[..n] == es[..n - 1] + [es[n - 1]];
      MissingSnoc(w, es[..n - 1], es[n - 1], room);
      LackingNext(w, es, n - 1);
    }
  }

  /** The `j`-th entry, if lacking, comes behind the lacking ones before it. */
  lemma {:induction false} MissingPlace(w: World, es: seq<IndexEntry>, room: nat, n: nat, j: nat)
    requires j < n <= |es| && es[j].key <= 0xFFFF_FFFF && Lacks(w, es[j].key, es[j].ts)
    requires |LackingAt(w, es, j)| < room
    ensures var hs := Missing(w, es[..n], room);
            |LackingAt(w, es, j)| < |hs| && hs[|LackingAt(w, es, j)|] == es[j].key
  {
    hide Lacks, Missing, LackingAt;
    assert es[..n] == es[..n - 1] + [es[n - 1]];
    MissingSnoc(w, es[..n - 1], es[n - 1], room);
    if j < n - 1 {
      MissingPlace(w, es, room, n - 1, j);
    } else {
      MissingCount(w, es, room, j);
    }
  }

  lemma NothingMissing(w: World, room: nat)
    ensures Missing(w, [], room) == []
  {}

  lemma LackingNext(w: World, es: seq<IndexEntry>, n: nat)
    requires n < |es|
    ensures var hit := es[n].key <= 0xFFFF_FFFF && Lacks(w, es[n].key, es[n].ts);
            && LackingAt(w, es, n + 1) == LackingAt(w, es, n) + (if hit then {n} else {})
            && |LackingAt(w, es, n + 1)| == |LackingAt(w, es, n)| + (if hit then 1 else 0)
  {
    var hit := es[n].key <= 0xFFFF_FFFF && Lacks(w, es[n].key, es[n].ts);
    assert LackingAt(w, es, n + 1) == LackingAt(w, es, n) + (if hit then {n} else {});
    assert n !in LackingAt(w, es, n);
  }

  ghost predicate Wellformed(s: seq<Slot>)
  {
    Unique(s) && Sized(s)
    && forall i :: 0 <= i < |s| && s[i].used && s[i].owner == SHARED_OWNER ==>
         Proper(RecOf(s[i])) && s[i].key == HashName(s[i].name)
  }

  /** The index entries the requester lacks name exactly the keys of the gap. */
  lemma IndexGap(w: World, s: seq<Slot>)
    requires Wellformed(s)
    ensures var es, gap := IndexOf(s, |s|), Gap(w, View(s, SHARED_OWNER));
            && (forall e :: e in es && e.key <= 0xFFFF_FFFF && Lacks(w, e.key, e.ts) ==> e.key in gap)
            && (forall k :: k in gap ==> exists e :: e in es && e.key == k && Lacks(w, k, e.ts))
  {
    hide HashName, Sized, IndexOf;
    var es, v := IndexOf(s, |s|), View(s, SHARED_OWNER);
    IndexMembers(s, |s|);
    forall e | e in es && e.key <= 0xFFFF_FFFF && Lacks(w, e.key, e.ts) ensures e.key in Gap(w, v) {
      var i :| 0 <= i < |s| && LiveShared(s[i]) && e == IndexEntry(s[i].key, s[i].ts);
      ViewAt(s, i);
    }
    forall k | k in Gap(w, v) ensures exists e :: e in es && e.key == k && Lacks(w, k, e.ts) {
      LiveKeyInIndex(s, k);
      assert IndexEntry(k, v[k].ts) in es;
    }
  }

  /** The diff asks only for keys of the gap, and for none exactly when the gap is empty. */
  lemma MissingIsGap(w: World, s: seq<Slot>)
    requires Wellformed(s)
    ensures var hs := Missing(w, IndexOf(s, |s|), MAX_FETCH);
            && (forall h :: h in hs ==> h in Gap(w, View(s, SHARED_OWNER)))
            && (hs == [] <==> Gap(w, View(s, SHARED_OWNER)) == {})
  {
    hide Wellformed, Missing, IndexOf, View, Gap, Lacks;
    var es, gap := IndexOf(s, |s|), Gap(w, View(s, SHARED_OWNER));
    var hs := Missing(w, es, MAX_FETCH);
    IndexGap(w, s);
    MissingMembers(w, es, MAX_FETCH);
    if hs != [] {
      assert hs[0] in hs;
    }
  }

  lemma LiveKeyInIndex(s: seq<Slot>, k: U32)
    requires Wellformed(s) && k in View(s, SHARED_OWNER) && !View(s, SHARED_OWNER)[k].tomb
    ensures exists i :: 0 <= i < |s| && LiveShared(s[i]) && s[i].key == k && s[i].ts == View(s, SHARED_OWNER)[k].ts
  {
    ViewHas(s, k, SHARED_OWNER);
    var i := Find(s, k, SHARED_OWNER);
    assert Proper(RecOf(s[i]));
    assert LiveShared(s[i]);
  }

  // ----- One lossless round --------------------------------------------------------------------

  /** The records of the value reply to a request for `hs`. */
  function Reply(s: seq<Slot>, hs: seq<U32>, base: nat, cap: nat): seq<Rec>
    requires Sized(s)
  {
    Taken(s, PickUpTo(s, hs, base, cap, |s|).take, |s|)
  }

  /** Index request, index, value request, values, merge: nothing lost on the way. */
  ghost function Round(p: Replica, s: seq<Slot>, base: nat, cap: nat): Replica
    requires Sized(s)
  {
    MergeAll(p, Reply(s, Missing(p.world, IndexOf(s, |s|), MAX_FETCH), base, cap))
  }

  /** A reply carries live records of asked keys, and at least one when some asked key is live. */
  lemma ReplyMembers(s: seq<Slot>, hs: seq<U32>, base: nat, cap: nat)
    requires Wellformed(s)
    ensures forall r :: r in Reply(s, hs, base, cap) ==>
              Proper(r) && HashName(r.name) in hs && HashName(r.name) in View(s, SHARED_OWNER)
              && View(s, SHARED_OWNER)[HashName(r.name)] == r
    ensures (exists k :: k in hs && k in View(s, SHARED_OWNER) && !View(s, SHARED_OWNER)[k].tomb) ==>
            Reply(s, hs, base, cap) != []
  {
    hide HashName, PickUpTo;
    var p := PickUpTo(s, hs, base, cap, |s|);
    PickProperties(s, hs, base, cap, |s|);
    TakenMembers(s, p.take, |s|);
    forall r | r in Reply(s, hs, base, cap)
      ensures Proper(r) && HashName(r.name) in hs && HashName(r.name) in View(s, SHARED_OWNER)
              && View(s, SHARED_OWNER)[HashName(r.name)] == r
    {
      var i :| 0 <= i < |s| && p.take[i] && RecOf(s[i]) == r;
      ViewAt(s, i);
    }
    forall k | k in hs && k in View(s, SHARED_OWNER) && !View(s, SHARED_OWNER)[k].tomb
      ensures Reply(s, hs, base, cap) != []
    {
      LiveKeyInIndex(s, k);
      var i :| 0 <= i < |s| && LiveShared(s[i]) && s[i].key == k;
      assert Wanted(s[i], hs);
    }
  }

  lemma GapShrinks(w: World, w': World, other: World)
    requires Grows(w, w')
    ensures Gap(w', other) <= Gap(w, other)
  {}

  /** Despite the 64-key and 320-byte caps, a lossless round against a static responder
      strictly shrinks the gap. */
  lemma RoundProgress(p: Replica, s: seq<Slot>, base: nat, cap: nat)
    requires Wellformed(s) && Keyed(p.world) && RoomFor(p, View(s, SHARED_OWNER).Keys)
    ensures var q, v := Round(p, s, base, cap), View(s, SHARED_OWNER);
            && Gap(q.world, v) <= Gap(p.world, v) && Keyed(q.world) && RoomFor(q, v.Keys)
            && (Gap(p.world, v) != {} ==> Gap(q.world, v) < Gap(p.world, v))
  {
    var q, v := Round(p, s, base, cap), View(s, SHARED_OWNER);
    var hs := Missing(p.world, IndexOf(s, |s|), MAX_FETCH);
    var rs := Reply(s, hs, base, cap);
    MissingIsGap(p.world, s);
    ReplyMembers(s, hs, base, cap);
    hide HashName, View, Wellformed, Missing, IndexOf, Reply, RoomFor, Grows, MergeAll, Accepted, Keyed, MergeRec;
    MergeAllGrows(p, rs);
    GapShrinks(p.world, q.world, v);
    AllAccepted(p, rs, v.Keys);
    MergeAllKeyed(p, rs);
    if Gap(p.world, v) != {} {
      assert hs[0] in hs;
      var r := rs[0];
      assert r in rs;
      MergedAtLeast(p, rs, v.Keys, r);
      assert HashName(r.name) in Gap(p.world, v) && HashName(r.name) !in Gap(q.world, v);
    }
  }

  // ----- When one round is enough -----------------------------------------------------------------

  ghost predicate DistinctKeys(es: seq<IndexEntry>)
  {
    forall i, j :: 0 <= i < j < |es| ==> es[i].key != es[j].key
  }

  lemma {:induction false} IndexDistinct(s: seq<Slot>, n: nat)
    requires Unique(s) && n <= |s|
    ensures DistinctKeys(IndexOf(s, n))
  {
    if n > 0 {
      IndexDistinct(s, n - 1);
      IndexMembers(s, n - 1);
      var es := IndexOf(s, n - 1);
      forall i | 0 <= i < |es| && LiveShared(s[n - 1]) ensures es[i].key != s[n - 1].key {
        assert es[i] in es;
      }
    }
  }

  ghost function KeysAt(es: seq<IndexEntry>, at: set<nat>): set<int>
    requires forall i :: i in at ==> i < |es|
  {
    set i | i in at :: es[i].key
  }

  lemma {:induction false} KeysAtSize(es: seq<IndexEntry>, at: set<nat>)
    requires DistinctKeys(es) && forall i :: i in at ==> i < |es|
    ensures |KeysAt(es, at)| == |at|
    decreases at
  {
    if at != {} {
      var x :| x in at;
      KeysAtSize(es, at - {x});
      assert KeysAt(es, at) == KeysAt(es, at - {x}) + {es[x].key};
      assert es[x].key !in KeysAt(es, at - {x});
    } else {
      assert KeysAt(es, at) == {};
    }
  }

  lemma KeysAtGap(w: World, es: seq<IndexEntry>, gap: set<U32>)
    requires forall e :: e in es && e.key <= 0xFFFF_FFFF && Lacks(w, e.key, e.ts) ==> e.key in gap
    requires forall k :: k in gap ==> exists e :: e in es && e.key == k && Lacks(w, k, e.ts)
    ensures KeysAt(es, LackingAt(w, es, |es|)) == gap
  {
    hide Lacks;
    forall k | k in gap ensures k in KeysAt(es, LackingAt(w, es, |es|)) {
      var e :| e in es && e.key == k && Lacks(w, k, e.ts);
      var j :| 0 <= j < |es| && es[j] == e;
      assert j in LackingAt(w, es, |es|);
    }
  }

  /** The lacking entries of an index are the keys of the gap. */
  lemma LackingIsGap(w: World, s: seq<Slot>)
    requires Wellformed(s)
    ensures var es, gap := IndexOf(s, |s|), Gap(w, View(s, SHARED_OWNER));
            KeysAt(es, LackingAt(w, es, |es|)) == gap && |LackingAt(w, es, |es|)| == |gap|
  {
    IndexDistinct(s, |s|);
    hide IndexOf, View, Wellformed, Gap, Lacks, Unique, DistinctKeys, Sized;
    var es := IndexOf(s, |s|);
    IndexGap(w, s);
    KeysAtGap(w, es, Gap(w, View(s, SHARED_OWNER)));
    KeysAtSize(es, LackingAt(w, es, |es|));
  }

  /** The diff asks for as many keys as the gap has, at most 64, and for all of them when there are
      no more. */
  lemma AsksForAll(w: World, s: seq<Slot>)
    requires Wellformed(s)
    ensures var hs, gap := Missing(w, IndexOf(s, |s|), MAX_FETCH), Gap(w, View(s, SHARED_OWNER));
            && |hs| == (if |gap| <= 64 then |gap| else 64)
            && (|gap| <= 64 ==> forall k :: k in hs <==> k in gap)
  {
    hide HashName, Missing, IndexOf, View, Wellformed, Gap;
    var es, gap := IndexOf(s, |s|), Gap(w, View(s, SHARED_OWNER));
    var hs := Missing(w, es, MAX_FETCH);
    MissingIsGap(w, s);
    LackingIsGap(w, s);
    MissingExact(w, es, MAX_FETCH);
    if |gap| <= 64 {
      forall k | k in gap ensures k in hs {
        assert k in KeysAt(es, LackingAt(w, es, |es|));
        var j :| j in LackingAt(w, es, |es|) && es[j].key == k;
        assert j !in LackingAt(w, es, j);
        SubsetSize(LackingAt(w, es, j), LackingAt(w, es, |es|));
      }
    }
  }

  lemma {:induction false} MergeAllOnly(p: Replica, rs: seq<Rec>, k: U32)
    requires forall r :: r in rs ==> HashName(r.name) != k
    ensures var q := MergeAll(p, rs);
            (k in q.world <==> k in p.world) && (k in p.world ==> q.world[k] == p.world[k])
    decreases |rs|
  {
    hide HashName;
    if rs != [] {
      assert rs[0] in rs;
      MergeAllOnly(MergeRec(p, rs[0]), rs[1..], k);
    }
  }

  /** Marks the slots that hold the keys of a gap. */
  ghost function GapMarks(s: seq<Slot>, gap: set<U32>): seq<bool>
  {
    seq(|s|, i requires 0 <= i < |s| => LiveShared(s[i]) && s[i].key in gap)
  }

  /** A reply holds every wanted record exactly when all of them fit, or at most one is wanted. */
  lemma ReplyAll(s: seq<Slot>, hs: seq<U32>, base: nat, cap: nat, all: seq<bool>)
    requires Wellformed(s) && Marks(s, hs, all)
    ensures (forall i :: 0 <= i < |s| && all[i] ==> RecOf(s[i]) in Reply(s, hs, base, cap)) <==>
            |Taken(s, all, |s|)| <= 1 || base + TakenBytes(s, all, |s|, true) <= cap
  {
    hide HashName, PickUpTo, Taken, TakenBytes, Sized;
    var take := PickUpTo(s, hs, base, cap, |s|).take;
    PickAll(s, hs, base, cap, all);
    PickProperties(s, hs, base, cap, |s|);
    TakenMembers(s, take, |s|);
    if forall i :: 0 <= i < |s| && all[i] ==> RecOf(s[i]) in Reply(s, hs, base, cap) {
      forall i | 0 <= i < |s| ensures take[i] == all[i] {
        if all[i] {
          var j :| 0 <= j < |s| && take[j] && RecOf(s[j]) == RecOf(s[i]);
          assert s[j].key == HashName(s[j].name) == s[i].key;
        }
      }
      assert take == all;
    }
  }

  lemma MarkedGap(w: World, s: seq<Slot>)
    requires Wellformed(s)
    ensures var gap := Gap(w, View(s, SHARED_OWNER)); |Taken(s, GapMarks(s, gap), |s|)| == |gap|
  {
    hide HashName, Taken, Sized;
    var gap := Gap(w, View(s, SHARED_OWNER));
    var all := GapMarks(s, gap);
    TakenKeysSize(s, all, |s|);
    forall k | k in gap ensures k in TakenKeys(s, all, |s|) {
      LiveKeyInIndex(s, k);
      var i :| 0 <= i < |s| && LiveShared(s[i]) && s[i].key == k;
      assert all[i];
    }
    assert TakenKeys(s, all, |s|) == gap;
  }

  /** Merging records of `v` empties the gap exactly when it brings every record of the gap. */
  lemma Emptied(p: Replica, rs: seq<Rec>, v: World)
    requires Keyed(p.world) && Keyed(v) && RoomFor(p, v.Keys)
    requires forall r :: r in rs ==> Proper(r) && HashName(r.name) in v && v[HashName(r.name)] == r
    ensures Gap(MergeAll(p, rs).world, v) == {} <==> forall k :: k in Gap(p.world, v) ==> v[k] in rs
  {
    hide HashName, RoomFor, Grows, MergeAll;
    var q := MergeAll(p, rs);
    MergeAllGrows(p, rs);
    GapShrinks(p.world, q.world, v);
    forall k | k in Gap(p.world, v) ensures k !in Gap(q.world, v) <==> v[k] in rs {
      if v[k] in rs {
        MergedAtLeast(p, rs, v.Keys, v[k]);
      } else {
        MergeAllOnly(p, rs, k);
      }
    }
  }

  lemma ViewKeyed(s: seq<Slot>)
    requires Wellformed(s)
    ensures Keyed(View(s, SHARED_OWNER))
  {
    hide HashName, Sized, Unique;
    forall k | k in View(s, SHARED_OWNER) ensures HashName(View(s, SHARED_OWNER)[k].name) == k {
      ViewHas(s, k, SHARED_OWNER);
    }
  }

  /** One lossless round empties the gap exactly when it has at most 64 keys and their records fit
      into one reply, or there is just one. */
  lemma OneRound(p: Replica, s: seq<Slot>, base: nat, cap: nat)
    requires Wellformed(s) && Keyed(p.world) && RoomFor(p, View(s, SHARED_OWNER).Keys)
    ensures var v := View(s, SHARED_OWNER);
            var gap := Gap(p.world, v);
            Gap(Round(p, s, base, cap).world, v) == {} <==>
            |gap| <= 64 && (|gap| <= 1 || base + TakenBytes(s, GapMarks(s, gap), |s|, true) <= cap)
  {
    var v := View(s, SHARED_OWNER);
    var gap, hs := Gap(p.world, v), Missing(p.world, IndexOf(s, |s|), MAX_FETCH);
    var all, rs := GapMarks(s, gap), Reply(s, hs, base, cap);
    hide HashName, Missing, IndexOf, Reply, RoomFor, Keyed, MergeAll, Gap, Sized, TakenBytes, View, GapMarks, Unique;
    AsksForAll(p.world, s);
    ReplyMembers(s, hs, base, cap);
    MarkedGap(p.world, s);
    ViewKeyed(s);
    Emptied(p, rs, v);
    if |gap| <= 64 {
      GapWanted(s, hs, gap);
      ReplyAll(s, hs, base, cap, all);
      GapRecords(p.world, s, rs);
    } else if forall k :: k in gap ==> v[k] in rs {
      var asked := set h | h in hs;
      assert forall k :: k in gap ==> k in asked by { GapKeyed(p.world, s); }
      SubsetSize(gap, asked);
      SeqSetSize(hs);
      assert false;
    }
  }

  lemma GapWanted(s: seq<Slot>, hs: seq<U32>, gap: set<U32>)
    requires forall k :: k in hs <==> k in gap
    ensures Marks(s, hs, GapMarks(s, gap))
  {}

  lemma GapKeyed(w: World, s: seq<Slot>)
    requires Wellformed(s)
    ensures forall k :: k in Gap(w, View(s, SHARED_OWNER)) ==>
              k in View(s, SHARED_OWNER) && HashName(View(s, SHARED_OWNER)[k].name) == k
  {
    hide HashName, View, Wellformed;
    ViewKeyed(s);
  }

  lemma MarkedRecord(w: World, s: seq<Slot>, i: nat)
    requires Wellformed(s) && i < |s| && GapMarks(s, Gap(w, View(s, SHARED_OWNER)))[i]
    ensures var v := View(s, SHARED_OWNER); s[i].key in Gap(w, v) && v[s[i].key] == RecOf(s[i])
  {
    hide HashName, Sized, View, Gap;
    ViewAt(s, i);
  }

  lemma GapSlot(w: World, s: seq<Slot>, k: U32)
    requires Wellformed(s) && k in Gap(w, View(s, SHARED_OWNER))
    ensures var v := View(s, SHARED_OWNER);
            exists i :: 0 <= i < |s| && GapMarks(s, Gap(w, v))[i] && v[k] == RecOf(s[i])
  {
    hide HashName, Sized, View;
    LiveKeyInIndex(s, k);
    var i :| 0 <= i < |s| && LiveShared(s[i]) && s[i].key == k;
    ViewAt(s, i);
    assert GapMarks(s, Gap(w, View(s, SHARED_OWNER)))[i];
  }

  /** The records of a gap, by key and by slot. */
  lemma GapRecords(w: World, s: seq<Slot>, rs: seq<Rec>)
    requires Wellformed(s)
    ensures var v := View(s, SHARED_OWNER);
            var all := GapMarks(s, Gap(w, v));
            (forall k :: k in Gap(w, v) ==> v[k] in rs) <==> forall i :: 0 <= i < |s| && all[i] ==> RecOf(s[i]) in rs
  {
    hide Wellformed, View;
    var v := View(s, SHARED_OWNER);
    var all := GapMarks(s, Gap(w, v));
    forall i | 0 <= i < |s| && all[i] ensures s[i].key in Gap(w, v) && v[s[i].key] == RecOf(s[i]) {
      MarkedRecord(w, s, i);
    }
    forall k | k in Gap(w, v) ensures exists i :: 0 <= i < |s| && all[i] && v[k] == RecOf(s[i]) {
      GapSlot(w, s, k);
    }
  }

  lemma {:induction false} MergeAllKeyed(p: Replica, rs: seq<Rec>)
    requires Keyed(p.world) && forall r :: r in rs ==> Proper(r)
    ensures Keyed(MergeAll(p, rs).world)
    decreases |rs|
  {
    hide HashName;
    if rs != [] {
      assert rs[0] in rs;
      MergeAllKeyed(MergeRec(p, rs[0]), rs[1..]);
    }
  }

  /** `n` lossless rounds; header budgets may differ from round to round. */
  ghost function Rounds(p: Replica, s: seq<Slot>, bases: seq<nat>, cap: nat): Replica
    requires Sized(s)
    decreases |bases|
  {
    if bases == [] then p else Rounds(Round(p, s, bases[0], cap), s, bases[1..], cap)
  }

  /** At most as many rounds as the gap has keys reach an empty diff. */
  lemma {:induction false} RepairTerminates(p: Replica, s: seq<Slot>, bases: seq<nat>, cap: nat)
    requires Wellformed(s) && Keyed(p.world) && RoomFor(p, View(s, SHARED_OWNER).Keys)
    requires |bases| >= |Gap(p.world, View(s, SHARED_OWNER))|
    ensures Gap(Rounds(p, s, bases, cap).world, View(s, SHARED_OWNER)) == {}
    ensures Missing(Rounds(p, s, bases, cap).world, IndexOf(s, |s|), MAX_FETCH) == []
    decreases |bases|
  {
    hide View, Round, RoomFor, Keyed, Gap, Unique;
    var v := View(s, SHARED_OWNER);
    if bases != [] {
      RoundProgress(p, s, bases[0], cap);
      var q := Round(p, s, bases[0], cap);
      SubsetSize(Gap(q.world, v), Gap(p.world, v));
      RepairTerminates(q, s, bases[1..], cap);
    } else {
      MissingIsGap(p.world, s);
    }
  }

  /** The frames of a round carry exactly these values over the wire. */
  lemma RoundOverWire(p: Replica, s: seq<Slot>, me: U64, peer: U64, hw: U64, digest: U64, base: nat, cap: nat)
    requires Wellformed(s) && |s| == CAPACITY && me != peer && me != SHARED_OWNER && peer != SHARED_OWNER
    ensures var es := IndexOf(s, |s|);
            var hs := Missing(p.world, es, MAX_FETCH);
            var rs := Reply(s, hs, base, cap);
            && ParseControl(EncIndexReply(peer, es)) == IndexReply(peer, es)
            && ParseControl(EncValueRequest(me, hs)) == ValueRequest(me, hs)
            && |rs| < TWO_64 && (forall r :: r in rs ==> Encodable(r))
            && ParseFrame(EncFrame(peer, SHARED_OWNER, hw, digest, rs), me)
                 == Parsed(peer, SHARED_OWNER, digest, rs, true)
  {
    var es := IndexOf(s, |s|);
    var hs := Missing(p.world, es, MAX_FETCH);
    var rs := Reply(s, hs, base, cap);
    IndexReplyRoundTrip(peer, es);
    ValueRequestRoundTrip(me, hs);
    ReplyMembers(s, hs, base, cap);
    hide HashName, ParseFrame, EncFrame, ParseControl, EncIndexReply, EncValueRequest, Missing, IndexOf, View,
         PickUpTo;
    assert |rs| <= CAPACITY;
    FrameRoundTrip(me, peer, SHARED_OWNER, hw, digest, rs);
  }

  // ----- What an empty diff certifies ------------------------------------------------------------

  /** A key on which certified replicas may still differ: tied on timestamp under different
      origins, or live on one side and deleted on the other at a timestamp no older. */
  predicate Undecided(a: World, b: World, k: U32)
  {
    k in a && k in b &&
    ((!a[k].tomb && !b[k].tomb && a[k].ts == b[k].ts && a[k].origin != b[k].origin)
     || (!a[k].tomb && b[k].tomb && b[k].ts >= a[k].ts)
     || (a[k].tomb && !b[k].tomb && a[k].ts >= b[k].ts))
  }

  ghost predicate Named(w: World)
  {
    forall k :: k in w ==> w[k].name != []
  }

  /** Empty diffs in both directions mean equal timestamps wherever both are live, and the live
      views agree at a key exactly unless that key is undecided. */
  lemma CertifiedKey(a: World, b: World, k: U32)
    requires Gap(a, b) == {} && Gap(b, a) == {}
    requires Named(a) && Named(b) && Coherent(a.Values + b.Values)
    ensures k in a && k in b && !a[k].tomb && !b[k].tomb ==> a[k].ts == b[k].ts
    ensures (k in LiveView(a) <==> k in LiveView(b)) && (k in LiveView(a) ==> LiveView(a)[k] == LiveView(b)[k])
            <==> !Undecided(a, b, k)
  {
    assert k !in Gap(a, b) && k !in Gap(b, a);
    if k in a && k in b {
      assert a[k] in a.Values + b.Values && b[k] in a.Values + b.Values;
    }
  }

  /** "Sync certified", exactly: with empty diffs both ways the live views, and so the digests,
      are equal if and only if no key is undecided. */
  lemma CertifiedExactly(a: World, b: World)
    requires Gap(a, b) == {} && Gap(b, a) == {}
    requires Named(a) && Named(b) && Coherent(a.Values + b.Values)
    ensures LiveView(a) == LiveView(b) <==> forall k :: !Undecided(a, b, k)
    ensures (forall k :: !Undecided(a, b, k)) ==> DigestOf(LiveView(a)) == DigestOf(LiveView(b))
  {
    hide Gap, Coherent, Named, LiveView, Undecided, DigestOf;
    forall k: U32
      ensures (k in LiveView(a) <==> k in LiveView(b)) && (k in LiveView(a) ==> LiveView(a)[k] == LiveView(b)[k])
              <==> !Undecided(a, b, k)
    {
      CertifiedKey(a, b, k);
    }
    if forall k :: !Undecided(a, b, k) {
      assert LiveView(a) == LiveView(b);
    }
  }

  /** The diff alone does not converge: two live copies tied on timestamp under different
      origins, or a delete the other side never heard, pass in both directions. */
  lemma CertifiedYetDifferent(name: seq<Byte>, d: seq<Byte>, t: U64)
    requires name != [] && d != [] && t + 1 < TWO_64
    ensures var k := HashName(name);
            var a, b := map[k := Rec(name, 1, t, false, d)], map[k := Rec(name, 2, t, false, d)];
            Gap(a, b) == {} && Gap(b, a) == {} && LiveView(a) != LiveView(b)
    ensures var k := HashName(name);
            var a, b := map[k := Rec(name, 1, t, false, d)], map[k := Rec(name, 2, t + 1, true, [])];
            Gap(a, b) == {} && Gap(b, a) == {} && LiveView(a) != LiveView(b)
  {
    hide HashName;
    var k := HashName(name);
    var a, b := map[k := Rec(name, 1, t, false, d)], map[k := Rec(name, 2, t, false, d)];
    var c := map[k := Rec(name, 2, t + 1, true, [])];
    assert k in LiveView(a) && k in LiveView(b) && k !in LiveView(c);
    assert LiveView(a)[k] != LiveView(b)[k];
  }
}
