/** Which records the exporters put into a frame, and how many bytes that takes. */
module Frames {
  import opened Bytes
  import opened Cbor
  import opened Lww
  import opened Wire
  import opened Slots
  import opened Bounded
  import opened Sums

  // ----- Marked slots, in slot order -----------------------------------------------------

  function Taken(s: seq<Slot>, take: seq<bool>, n: nat): (rs: seq<Rec>)
    requires n <= |s| && n <= |take|
    ensures |rs| <= n
  {
    if n == 0 then [] else Taken(s, take, n - 1) + if take[n - 1] then [RecOf(s[n - 1])] else []
  }

  function TakenBytes(s: seq<Slot>, take: seq<bool>, n: nat, shared: bool): nat
    requires Sized(s) && n <= |s| && n <= |take|
  {
    if n == 0 then 0
    else TakenBytes(s, take, n - 1, shared) + if take[n - 1] then RecordSize(RecOf(s[n - 1]), shared) else 0
  }

  lemma {:induction false} TakenMembers(s: seq<Slot>, take: seq<bool>, n: nat)
    requires n <= |s| && n <= |take|
    ensures forall r :: r in Taken(s, take, n) <==> exists i :: 0 <= i < n && take[i] && RecOf(s[i]) == r
  {
    if n > 0 {
      TakenMembers(s, take, n - 1);
    }
  }

  lemma TakenEncodable(s: seq<Slot>, take: seq<bool>, n: nat)
    requires Sized(s) && n <= |s| && n <= |take|
    ensures forall r :: r in Taken(s, take, n) ==> Encodable(r)
  {
    TakenMembers(s, take, n);
  }

  lemma {:induction false} TakenSize(s: seq<Slot>, take: seq<bool>, n: nat, shared: bool)
    requires Sized(s) && n <= |s| && n <= |take|
    requires forall r :: r in Taken(s, take, n) ==> Encodable(r)
    ensures |EncRecords(Taken(s, take, n), shared)| == TakenBytes(s, take, n, shared)
  {
    hide EncRecord, RecordSize, Encodable;
    if n > 0 {
      TakenEncodable(s, take, n - 1);
      TakenSize(s, take, n - 1, shared);
      var before, rs := Taken(s, take, n - 1), Taken(s, take, n);
      if take[n - 1] {
        assert rs[..|rs| - 1] == before;
      } else {
        assert rs == before;
      }
    }
  }

  lemma TakenSnoc(s: seq<Slot>, take: seq<bool>, n: nat, shared: bool)
    requires Sized(s) && n <= |s| && |take| == |s|
    ensures forall r :: r in Taken(s, take, n) ==> Encodable(r)
    ensures n == 0 ==> EncRecords(Taken(s, take, n), shared) == []
    ensures n < |s| ==>
              && (forall r :: r in Taken(s, take, n + 1) ==> Encodable(r))
              && Encodable(RecOf(s[n]))
              && EncRecords(Taken(s, take, n + 1), shared)
                 == EncRecords(Taken(s, take, n), shared) + if take[n] then EncRecord(RecOf(s[n]), shared) else []
  {
    hide EncRecord, RecordSize, Encodable;
    TakenEncodable(s, take, n);
    if n < |s| {
      TakenEncodable(s, take, n + 1);
      var rs := Taken(s, take, n + 1);
      if take[n] {
        assert rs[..|rs| - 1] == Taken(s, take, n);
      } else {
        assert rs == Taken(s, take, n);
      }
    }
  }

  lemma {:induction false} TakenLess(s: seq<Slot>, take: seq<bool>, n: nat, m: nat, shared: bool)
    requires Sized(s) && n <= m <= |s| && m <= |take|
    ensures TakenBytes(s, take, n, shared) <= TakenBytes(s, take, m, shared)
    ensures |Taken(s, take, n)| <= |Taken(s, take, m)|
    decreases m
  {
    if n < m {
      TakenLess(s, take, n, m - 1, shared);
    }
  }

  // ----- High-water marks ------------------------------------------------------------------

  /** The highest timestamp among the selected slots of the first `n`. */
  function HighWater(s: seq<Slot>, sel: Slot -> bool, n: nat): (h: U64)
    requires n <= |s|
    ensures forall i :: 0 <= i < n && sel(s[i]) ==> s[i].ts <= h
    ensures h == 0 || exists i :: 0 <= i < n && sel(s[i]) && s[i].ts == h
  {
    if n == 0 then 0 else
      var h := HighWater(s, sel, n - 1);
      if sel(s[n - 1]) then Max(h, s[n - 1].ts) else h
  }

  function OwnedBy(owner: U64): Slot -> bool { (f: Slot) => f.used && f.owner == owner }

  function NamedBy(owner: U64): Slot -> bool { (f: Slot) => f.used && f.owner == owner && f.name != [] }

  // ----- Value replies by key hash ----------------------------------------------------------

  predicate LiveShared(sl: Slot)
  {
    sl.used && !sl.tomb && sl.owner == SHARED_OWNER && sl.name != []
  }

  predicate Wanted(sl: Slot, hashes: seq<U32>)
  {
    LiveShared(sl) && sl.key in hashes
  }

  /** Header bytes budgeted for a value reply: worst-case mark, and the count asked for. */
  function ValueBudget(id: U64, digest: U64, asked: U64): nat
  {
    UintSize(5) + UintSize(id) + UintSize(SHARED_OWNER) + 9 + UintSize(digest) + UintSize(asked)
  }

  datatype Pick = Pick(take: seq<bool>, body: nat, matched: nat)

  /** The first pass of export_shared_by_hash over the first `n` slots: a wanted entry is taken
      unless one is taken already and it would exceed the cap. Later, smaller ones may still
      fit. */
  function PickUpTo(s: seq<Slot>, hashes: seq<U32>, base: nat, cap: nat, n: nat): (p: Pick)
    requires Sized(s) && n <= |s|
    ensures |p.take| == n && p.matched <= n
  {
    if n == 0 then Pick([], base, 0) else
      var p := PickUpTo(s, hashes, base, cap, n - 1);
      var size := RecordSize(RecOf(s[n - 1]), true);
      if Wanted(s[n - 1], hashes) && !(p.matched > 0 && p.body + size > cap)
      then Pick(p.take + [true], p.body + size, p.matched + 1)
      else Pick(p.take + [false], p.body, p.matched)
  }

  /** Only wanted entries are taken, at least one if any is wanted, and together with a second
      one only within the cap. */
  lemma {:induction false} PickProperties(s: seq<Slot>, hashes: seq<U32>, base: nat, cap: nat, n: nat)
    requires Sized(s) && n <= |s|
    ensures var p := PickUpTo(s, hashes, base, cap, n);
            && p.body == base + TakenBytes(s, p.take, n, true) && p.matched == |Taken(s, p.take, n)|
            && (forall i :: 0 <= i < n && p.take[i] ==> Wanted(s[i], hashes))
            && ((exists i :: 0 <= i < n && Wanted(s[i], hashes)) <==> p.matched >= 1)
            && (p.matched >= 2 ==> p.body <= cap)
  {
    hide PickUpTo, Taken, TakenBytes, Wanted;
    PickSums(s, hashes, base, cap, n);
    PickChoice(s, hashes, base, cap, n);
  }

  lemma {:induction false} PickSums(s: seq<Slot>, hashes: seq<U32>, base: nat, cap: nat, n: nat)
    requires Sized(s) && n <= |s|
    ensures var p := PickUpTo(s, hashes, base, cap, n);
            p.body == base + TakenBytes(s, p.take, n, true) && p.matched == |Taken(s, p.take, n)|
  {
    hide RecordSize, Wanted, Encodable;
    if n > 0 {
      PickSums(s, hashes, base, cap, n - 1);
      var q, p := PickUpTo(s, hashes, base, cap, n - 1), PickUpTo(s, hashes, base, cap, n);
      assert p.take[..n - 1] == q.take;
      TakenPrefix(s, q.take, p.take, n - 1, true);
    }
  }

  lemma {:induction false} PickChoice(s: seq<Slot>, hashes: seq<U32>, base: nat, cap: nat, n: nat)
    requires Sized(s) && n <= |s|
    ensures var p := PickUpTo(s, hashes, base, cap, n);
            && (forall i :: 0 <= i < n && p.take[i] ==> Wanted(s[i], hashes))
            && ((exists i :: 0 <= i < n && Wanted(s[i], hashes)) <==> p.matched >= 1)
            && (p.matched >= 2 ==> p.body <= cap)
  {
    hide RecordSize, Wanted, Encodable;
    if n > 0 {
      PickChoice(s, hashes, base, cap, n - 1);
    }
  }

  lemma {:induction false} TakenPrefix(s: seq<Slot>, a: seq<bool>, b: seq<bool>, n: nat, shared: bool)
    requires Sized(s) && n <= |s| && n <= |a| && n <= |b| && a[..n] == b[..n]
    ensures Taken(s, a, n) == Taken(s, b, n) && TakenBytes(s, a, n, shared) == TakenBytes(s, b, n, shared)
  {
    hide RecordSize, Encodable;
    if n > 0 {
      assert a[n - 1] == a[..n][n - 1] == b[..n][n - 1] == b[n - 1];
      assert a[..n - 1] == a[..n][..n - 1] == b[..n][..n - 1] == b[..n - 1];
      TakenPrefix(s, a, b, n - 1, shared);
    }
  }

  lemma PickPrefix(s: seq<Slot>, hashes: seq<U32>, base: nat, cap: nat, n: nat)
    requires Sized(s) && 0 < n <= |s|
    ensures PickUpTo(s, hashes, base, cap, n).take[..n - 1] == PickUpTo(s, hashes, base, cap, n - 1).take
    ensures var p, q := PickUpTo(s, hashes, base, cap, n), PickUpTo(s, hashes, base, cap, n - 1);
            Wanted(s[n - 1], hashes) && !p.take[n - 1] ==>
              q.matched > 0 && q.body + RecordSize(RecOf(s[n - 1]), true) > cap
  {
    hide RecordSize, Wanted, Encodable;
  }

  /** A wanted entry is left out only behind a taken one, and only if the cap has no room for it
      next to what was taken before it. */
  lemma {:induction false} PickMaximal(s: seq<Slot>, hashes: seq<U32>, base: nat, cap: nat, n: nat, i: nat)
    requires Sized(s) && i < n <= |s| && Wanted(s[i], hashes) && !PickUpTo(s, hashes, base, cap, n).take[i]
    ensures var take := PickUpTo(s, hashes, base, cap, n).take;
            && (exists j :: 0 <= j < i && take[j])
            && base + TakenBytes(s, take, i, true) + RecordSize(RecOf(s[i]), true) > cap
  {
    hide PickUpTo, RecordSize, Wanted, Encodable, Taken, TakenBytes;
    var p, q := PickUpTo(s, hashes, base, cap, n), PickUpTo(s, hashes, base, cap, n - 1);
    PickPrefix(s, hashes, base, cap, n);
    assert forall j :: 0 <= j < n - 1 ==> p.take[j] == p.take[..n - 1][j] == q.take[j];
    assert p.take[..i] == q.take[..i];
    TakenPrefix(s, p.take, q.take, i, true);
    if i < n - 1 {
      PickMaximal(s, hashes, base, cap, n - 1, i);
    } else {
      PickSums(s, hashes, base, cap, n - 1);
      TakenMembers(s, q.take, n - 1);
      assert Taken(s, q.take, n - 1)[0] in Taken(s, q.take, n - 1);
    }
  }

  ghost predicate Marks(s: seq<Slot>, hashes: seq<U32>, take: seq<bool>)
  {
    |take| == |s| && forall i :: 0 <= i < |s| ==> (take[i] <==> Wanted(s[i], hashes))
  }

  /** All wanted entries travel in one reply exactly when they fit the cap together, or when there
      is no more than one. */
  lemma PickAll(s: seq<Slot>, hashes: seq<U32>, base: nat, cap: nat, all: seq<bool>)
    requires Sized(s) && Marks(s, hashes, all)
    ensures PickUpTo(s, hashes, base, cap, |s|).take == all <==>
            |Taken(s, all, |s|)| <= 1 || base + TakenBytes(s, all, |s|, true) <= cap
  {
    hide PickUpTo, RecordSize, Wanted, Encodable, Taken, TakenBytes;
    var p := PickUpTo(s, hashes, base, cap, |s|);
    PickProperties(s, hashes, base, cap, |s|);
    if i :| 0 <= i < |s| && p.take[i] != all[i] {
      PickMaximal(s, hashes, base, cap, |s|, i);
      TakenWithin(s, p.take, all, i);
      TakenStep(s, all, i);
      TakenLess(s, all, i + 1, |s|, true);
      var j :| 0 <= j < i && p.take[j];
      TakenStep(s, p.take, j);
      TakenLess(s, p.take, j + 1, i, true);
    } else {
      assert p.take == all;
    }
  }

  lemma TakenStep(s: seq<Slot>, take: seq<bool>, i: nat)
    requires Sized(s) && i < |s| && i < |take|
    ensures take[i] ==> |Taken(s, take, i + 1)| == |Taken(s, take, i)| + 1
    ensures take[i] ==>
              TakenBytes(s, take, i + 1, true) == TakenBytes(s, take, i, true) + RecordSize(RecOf(s[i]), true)
  {}

  lemma {:induction false} TakenWithin(s: seq<Slot>, a: seq<bool>, b: seq<bool>, n: nat)
    requires Sized(s) && n <= |s| && n <= |a| && n <= |b| && forall i :: 0 <= i < n && a[i] ==> b[i]
    ensures TakenBytes(s, a, n, true) <= TakenBytes(s, b, n, true) && |Taken(s, a, n)| <= |Taken(s, b, n)|
  {
    hide RecordSize, Encodable;
    if n > 0 {
      TakenWithin(s, a, b, n - 1);
    }
  }

  ghost function TakenKeys(s: seq<Slot>, take: seq<bool>, n: nat): set<U32>
    requires n <= |s| && n <= |take|
  {
    set i | 0 <= i < n && take[i] :: s[i].key
  }

  /** A reply never holds more records than keys were asked for. */
  lemma PickBound(s: seq<Slot>, hashes: seq<U32>, base: nat, cap: nat)
    requires Sized(s) && Unique(s)
    ensures PickUpTo(s, hashes, base, cap, |s|).matched <= |hashes|
  {
    var p := PickUpTo(s, hashes, base, cap, |s|);
    PickProperties(s, hashes, base, cap, |s|);
    hide PickUpTo;
    TakenKeysSize(s, p.take, |s|);
    var asked := set h | h in hashes;
    assert TakenKeys(s, p.take, |s|) <= asked;
    SubsetSize(TakenKeys(s, p.take, |s|), asked);
    SeqSetSize(hashes);
  }

  lemma {:induction false} TakenKeysSize(s: seq<Slot>, take: seq<bool>, n: nat)
    requires Unique(s) && n <= |s| && n <= |take|
    requires forall i :: 0 <= i < n && take[i] ==> LiveShared(s[i])
    ensures |TakenKeys(s, take, n)| == |Taken(s, take, n)|
  {
    hide Unique, LiveShared, TakenKeys;
    if n > 0 {
      TakenKeysSize(s, take, n - 1);
      TakenKeysNext(s, take, n - 1);
    } else {
      TakenKeysNone(s, take);
    }
  }

  lemma TakenKeysNone(s: seq<Slot>, take: seq<bool>)
    ensures TakenKeys(s, take, 0) == {}
  {}

  lemma TakenKeysNext(s: seq<Slot>, take: seq<bool>, n: nat)
    requires Unique(s) && n < |s| && n < |take|
    requires forall i :: 0 <= i <= n && take[i] ==> LiveShared(s[i])
    ensures |TakenKeys(s, take, n + 1)| == |TakenKeys(s, take, n)| + if take[n] then 1 else 0
  {
    if take[n] {
      assert TakenKeys(s, take, n + 1) == TakenKeys(s, take, n) + {s[n].key};
      assert s[n].key !in TakenKeys(s, take, n);
    } else {
      assert TakenKeys(s, take, n + 1) == TakenKeys(s, take, n);
    }
  }

  lemma {:induction false} SeqSetSize<T>(xs: seq<T>)
    ensures |set x | x in xs| <= |xs|
  {
    if xs != [] {
      var n := |xs| - 1;
      SeqSetSize(xs[..n]);
      assert xs == xs[..n] + [xs[n]];
      assert (set x | x in xs) == (set x | x in xs[..n]) + {xs[n]};
    }
  }

  // ----- The bounded exporter's frame -----------------------------------------------------

  ghost function Marked(take: seq<bool>, n: nat): set<nat>
    requires n <= |take|
  {
    set i: nat | i < n && take[i]
  }

  lemma MarkedSnoc(take: seq<bool>, n: nat)
    requires 0 < n <= |take|
    ensures if take[n - 1] then n - 1 in Marked(take, n) && Marked(take, n) - {n - 1} == Marked(take, n - 1)
            else Marked(take, n) == Marked(take, n - 1)
  {}

  lemma {:induction false} TakenCounts(s: seq<Slot>, take: seq<bool>, n: nat)
    requires Sized(s) && n <= |s| && n <= |take|
    ensures |Taken(s, take, n)| == |Marked(take, n)|
    ensures TakenBytes(s, take, n, true) == Sum(Marked(take, n), SizeAt(s))
  {
    if n == 0 {
      assert Marked(take, n) == {};
    } else {
      hide RecordSize, Encodable, Marked, Sum;
      TakenCounts(s, take, n - 1);
      MarkedSnoc(take, n);
      if take[n - 1] {
        SumPick<nat>(Marked(take, n), SizeAt(s), n - 1);
      }
    }
  }

  lemma {:induction false} TakenSame(s: seq<Slot>, s': seq<Slot>, take: seq<bool>, n: nat)
    requires |s'| == |s| && n <= |s| && n <= |take|
    requires forall i :: 0 <= i < |s| ==> RecOf(s'[i]) == RecOf(s[i])
    ensures Taken(s', take, n) == Taken(s, take, n)
    ensures Sized(s) && Sized(s') ==> TakenBytes(s', take, n, true) == TakenBytes(s, take, n, true)
  {
    hide RecordSize, Encodable;
    if n > 0 {
      TakenSame(s, s', take, n - 1);
    }
  }

  /** The frame of a bounded export: as many records as were carried, and as many bytes as the
      packing loop counted. */
  lemma CarriedFrame(s: seq<Slot>, clock: U64, order: seq<nat>, k: nat, take: seq<bool>)
    requires Sized(s) && k <= |order| && |take| == |s|
    requires forall d, e :: 0 <= d < e < |order| ==> order[d] != order[e]
    requires forall e :: 0 <= e < |order| ==> order[e] < |s|
    requires forall i :: 0 <= i < |take| ==> (take[i] <==> i in Carried(order, k))
    ensures var s' := Mark(s, Carried(order, k), clock);
            && Sized(s') && Taken(s', take, |take|) == Taken(s, take, |take|)
            && |Taken(s, take, |take|)| == k && TakenBytes(s', take, |take|, true) == Load(s, order, k)
  {
    MarkSame(s, Carried(order, k), clock, 0);
    TakenSame(s, Mark(s, Carried(order, k), clock), take, |take|);
    TakenCounts(s, take, |take|);
    CarriedSize(order, k);
    LoadIsSum(s, order, k);
    assert Marked(take, |take|) == Carried(order, k);
  }
}
