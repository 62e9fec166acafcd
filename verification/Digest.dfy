/** The stream digest: the 64-bit sum of one hash per live named entry. Slots are added in
    storage order, and the result depends only on the live view. */
module Digest {
  import opened Bytes
  import opened Hashing
  import opened Lww
  import opened Slots
  import opened Sums

  /** What a reader of the stream can see: no tombstones, no unnamed raw-key entries. */
  ghost function LiveView(w: World): (v: World)
  {
    map k | k in w && !w[k].tomb && w[k].name != [] :: w[k]
  }

  function RecHash(r: Rec): U64
  {
    EntryHash(r.name, r.origin, r.ts, r.data)
  }

  ghost function HashAt(w: World): U32 -> int
  {
    k => if k in w then RecHash(w[k]) else 0
  }

  /** The digest as a function of the live view alone. */
  ghost function DigestOf(v: World): U64
  {
    Sum(v.Keys, HashAt(v)) % TWO_64
  }

  predicate Counted(sl: Slot, owner: U64)
  {
    sl.used && !sl.tomb && sl.owner == owner && sl.name != []
  }

  /** compute_stream_digest over the first `n` slots. */
  function SlotSum(s: seq<Slot>, owner: U64, n: nat): U64
    requires n <= |s|
  {
    if n == 0 then 0
    else if Counted(s[n - 1], owner) then (SlotSum(s, owner, n - 1) + RecHash(RecOf(s[n - 1]))) % TWO_64
    else SlotSum(s, owner, n - 1)
  }

  ghost function CountedKeys(s: seq<Slot>, owner: U64, n: nat): set<U32>
    requires n <= |s|
  {
    set i | 0 <= i < n && Counted(s[i], owner) :: s[i].key
  }

  lemma CountedGrow(s: seq<Slot>, owner: U64, n: nat)
    requires Unique(s) && 0 < n <= |s|
    ensures var before, after := CountedKeys(s, owner, n - 1), CountedKeys(s, owner, n);
            if Counted(s[n - 1], owner) then s[n - 1].key in after && after - {s[n - 1].key} == before
            else after == before
  {}

  lemma NoneCounted(s: seq<Slot>, owner: U64)
    ensures CountedKeys(s, owner, 0) == {} && Sum(CountedKeys(s, owner, 0), HashAt(View(s, owner))) == 0
  {}

  lemma {:induction false} SlotSumIsSum(s: seq<Slot>, owner: U64, n: nat)
    requires Unique(s) && n <= |s|
    ensures SlotSum(s, owner, n) == Sum(CountedKeys(s, owner, n), HashAt(View(s, owner))) % TWO_64
  {
    hide RecHash, CountedKeys, View, Unique, Sum;
    if n == 0 {
      NoneCounted(s, owner);
    } else {
      SlotSumIsSum(s, owner, n - 1);
      CountedGrow(s, owner, n);
      var f := HashAt(View(s, owner));
      if Counted(s[n - 1], owner) {
        SumPick(CountedKeys(s, owner, n), f, s[n - 1].key);
        ViewAt(s, n - 1);
        assert f(s[n - 1].key) == RecHash(RecOf(s[n - 1]));
        ModAdd(Sum(CountedKeys(s, owner, n - 1), f), RecHash(RecOf(s[n - 1])));
      }
    }
  }

  lemma ModAdd(a: int, b: int)
    ensures (a % TWO_64 + b) % TWO_64 == (a + b) % TWO_64
  {}

  /** The digest computed over the slots is the digest of the live view they represent: slot
      order, insertion history, tombstones and unnamed entries leave no trace. */
  lemma DigestOfSlots(s: seq<Slot>, owner: U64)
    requires Unique(s)
    ensures SlotSum(s, owner, |s|) == DigestOf(LiveView(View(s, owner)))
  {
    hide RecHash;
    var w := View(s, owner);
    var v := LiveView(w);
    SlotSumIsSum(s, owner, |s|);
    CountedAreLive(s, owner);
    SumAgree(v.Keys, HashAt(w), HashAt(v));
  }

  lemma CountedAreLive(s: seq<Slot>, owner: U64)
    requires Unique(s)
    ensures CountedKeys(s, owner, |s|) == LiveView(View(s, owner)).Keys
  {
    var w := View(s, owner);
    forall k | k in CountedKeys(s, owner, |s|) ensures k in LiveView(w) {
      var i :| 0 <= i < |s| && Counted(s[i], owner) && s[i].key == k;
      ViewAt(s, i);
    }
    forall k | k in LiveView(w) ensures k in CountedKeys(s, owner, |s|) {
      ViewHas(s, k, owner);
      assert Counted(s[Find(s, k, owner)], owner);
    }
  }
}
