/** The visited-state set: open addressing with linear probing and wrap-around
    (src/planner/fleece_planner.c). Keys are the serialized states. */
module Visited {
  import opened Bytes
  import opened Hashing

  type Key = seq<Byte>

  datatype Slot = Free | Full(key: Key)

  /** fnv1a64 of the planner (its own offset basis). */
  function KeyHash(k: Key): U64
  {
    Fnv64(1469598103934665603, k)
  }

  function Home(k: Key, cap: nat): nat
    requires cap > 0
  {
    KeyHash(k) % cap
  }

  /** The slot examined by probe number `p`. */
  function Probe(home: nat, p: nat, cap: nat): (i: nat)
    requires home < cap && p < cap
    ensures i < cap
  {
    if home + p < cap then home + p else home + p - cap
  }

  /** Up to this many slots the 32-bit sum of a probe does not wrap. */
  const MAX_PROBED: nat := 0x8000_0000

  lemma ProbeIsModulo(home: nat, p: nat, cap: nat)
    requires home < cap && p < cap <= MAX_PROBED
    ensures Probe(home, p, cap) == (home + p) % TWO_32 % cap
  {
    assert (home + p) % TWO_32 == home + p;
    OneWrap(home + p, cap);
  }

  lemma OneWrap(x: nat, m: nat)
    requires x < 2 * m
    ensures x % m == if x < m then x else x - m
  {
    var q, r := x / m, x % m;
    assert x == m * q + r;
    assert q >= 2 ==> m * q >= m * 2;
    assert q <= 0 ==> m * q <= 0;
  }

  /** visited_init: `max_nodes * 2 + 1` in 32 bits. */
  function TableSize(maxNodes: U32): (n: nat)
    ensures n > 0
  {
    (maxNodes * 2 + 1) % TWO_32
  }

  /** The probe number that reaches slot `i`. */
  function Distance(home: nat, i: nat, cap: nat): (p: nat)
    requires home < cap && i < cap
    ensures p < cap && Probe(home, p, cap) == i
  {
    if i >= home then i - home else i + cap - home
  }

  /** Every stored key is reachable: no slot between its home and its place is free. */
  ghost predicate Chained(s: seq<Slot>)
  {
    forall i: nat, p: nat :: i < |s| && s[i].Full? && p < Distance(Home(s[i].key, |s|), i, |s|)
      ==> s[Probe(Home(s[i].key, |s|), p, |s|)].Full?
  }

  ghost predicate Distinct(s: seq<Slot>)
  {
    forall i, j :: 0 <= i < j < |s| && s[i].Full? && s[j].Full? ==> s[i].key != s[j].key
  }

  ghost function Keys(s: seq<Slot>): set<Key>
  {
    set i | 0 <= i < |s| && s[i].Full? :: s[i].key
  }

  ghost predicate HasFree(s: seq<Slot>)
  {
    exists i :: 0 <= i < |s| && s[i].Free?
  }

  /** A free slot on the probe path proves absence: a stored copy would have been met first. */
  lemma AbsentBefore(s: seq<Slot>, k: Key, p: nat)
    requires s != [] && Chained(s) && p < |s| && s[Probe(Home(k, |s|), p, |s|)].Free?
    requires forall q :: 0 <= q < p ==> s[Probe(Home(k, |s|), q, |s|)] != Full(k)
    ensures k !in Keys(s)
  {
    forall i: nat | i < |s| && s[i].Full? ensures s[i].key != k {
      var h := Home(s[i].key, |s|);
      var d := Distance(h, i, |s|);
      assert d > p ==> s[Probe(h, p, |s|)].Full?;
      assert d < p && h == Home(k, |s|) ==> s[Probe(h, d, |s|)] != Full(k);
    }
  }

  /** All slots probed and full: nothing free, and the key is not stored. */
  lemma NoneFree(s: seq<Slot>, k: Key)
    requires s != []
    requires forall q: nat :: q < |s| ==>
               s[Probe(Home(k, |s|), q, |s|)].Full? && s[Probe(Home(k, |s|), q, |s|)] != Full(k)
    ensures !HasFree(s) && k !in Keys(s)
  {
    forall i | 0 <= i < |s| ensures s[i].Full? && s[i] != Full(k) {
      assert Probe(Home(k, |s|), Distance(Home(k, |s|), i, |s|), |s|) == i;
    }
  }

  lemma InsertKeeps(s: seq<Slot>, k: Key, p: nat)
    requires s != [] && Chained(s) && Distinct(s) && p < |s| && k !in Keys(s)
    requires s[Probe(Home(k, |s|), p, |s|)].Free?
    requires forall q :: 0 <= q < p ==> s[Probe(Home(k, |s|), q, |s|)].Full?
    ensures var s' := s[Probe(Home(k, |s|), p, |s|) := Full(k)];
            Chained(s') && Distinct(s') && Keys(s') == Keys(s) + {k}
  {
    hide KeyHash;
    var i := Probe(Home(k, |s|), p, |s|);
    var s' := s[i := Full(k)];
    assert s'[i] == Full(k);
    forall j, q: nat | 0 <= j < |s'| && s'[j].Full? && q < Distance(Home(s'[j].key, |s'|), j, |s'|)
      ensures s'[Probe(Home(s'[j].key, |s'|), q, |s'|)].Full?
    {
      if j == i {
        assert Distance(Home(k, |s|), i, |s|) == p;
      }
    }
    forall x | x in Keys(s) + {k} ensures x in Keys(s') {
      if x in Keys(s) {
        var j :| 0 <= j < |s| && s[j].Full? && s[j].key == x;
        assert s'[j].Full? && s'[j].key == x;
      }
    }
  }

  class VisitedSet {
    const slots: array<Slot>
    var count: nat

    ghost predicate Valid()
      reads this, slots
    {
      0 < slots.Length <= MAX_PROBED && Chained(slots[..]) && Distinct(slots[..]) && count == |Keys(slots[..])|
    }

    ghost function Contents(): set<Key>
      reads this, slots
    {
      Keys(slots[..])
    }

    /** visited_init */
    constructor (maxNodes: U32)
      requires TableSize(maxNodes) <= MAX_PROBED
      ensures Valid() && fresh(slots) && Contents() == {} && slots.Length == TableSize(maxNodes)
      ensures HasFree(slots[..])
    {
      slots := new Slot[TableSize(maxNodes)](_ => Free);
      count := 0;
      new;
      assert Contents() == {};
      assert slots[..][0].Free?;
    }

    /** visited_add: true exactly when the key was absent and a slot was free. */
    method Add(k: Key) returns (added: bool)
      requires Valid()
      modifies this, slots
      ensures Valid()
      ensures added <==> k !in old(Contents()) && old(HasFree(slots[..]))
      ensures Contents() == if added then old(Contents()) + {k} else old(Contents())
      ensures !added ==> slots[..] == old(slots[..])
    {
      hide KeyHash, Keys, Chained, Distinct;
      var cap := slots.Length;
      ghost var s := slots[..];
      var home := Home(k, cap);
      for p := 0 to cap
        invariant slots[..] == s && Valid()
        invariant forall q :: 0 <= q < p ==> s[Probe(home, q, cap)].Full? && s[Probe(home, q, cap)] != Full(k)
      {
        var i := Probe(home, p, cap);
        if slots[i].Free? {
          AbsentBefore(s, k, p);
          InsertKeeps(s, k, p);
          slots[i] := Full(k);
          assert slots[..] == s[i := Full(k)];
          count := count + 1;
          return true;
        }
        if slots[i].key == k {
          StoredKey(s, i);
          return false;
        }
      }
      NoneFree(s, k);
      added := false;
    }
  }

  /** A table without free slots holds as many keys as slots. */
  lemma FullCount(s: seq<Slot>)
    requires Distinct(s)
    ensures !HasFree(s) ==> |Keys(s)| == |s|
  {
    if !HasFree(s) {
      FullPrefix(s, |s|);
    }
  }

  /** A table with a free slot holds fewer keys than slots. */
  lemma FreeCount(s: seq<Slot>)
    requires HasFree(s)
    ensures |Keys(s)| < |s|
  {
    KeysUpTo(s, |s|);
  }

  lemma {:induction false} KeysUpTo(s: seq<Slot>, n: nat)
    requires n <= |s|
    ensures var now := set i | 0 <= i < n && s[i].Full? :: s[i].key;
            |now| <= n && ((exists i :: 0 <= i < n && s[i].Free?) ==> |now| < n)
  {
    var now := set i | 0 <= i < n && s[i].Full? :: s[i].key;
    if n == 0 {
      assert now == {};
    } else {
      KeysUpTo(s, n - 1);
      var before := set i | 0 <= i < n - 1 && s[i].Full? :: s[i].key;
      assert now == if s[n - 1].Full? then before + {s[n - 1].key} else before;
    }
  }

  lemma {:induction false} FullPrefix(s: seq<Slot>, n: nat)
    requires Distinct(s) && n <= |s| && forall i :: 0 <= i < |s| ==> s[i].Full?
    ensures |set i | 0 <= i < n && s[i].Full? :: s[i].key| == n
  {
    var now := set i | 0 <= i < n && s[i].Full? :: s[i].key;
    if n == 0 {
      assert now == {};
    } else {
      FullPrefix(s, n - 1);
      var before := set i | 0 <= i < n - 1 && s[i].Full? :: s[i].key;
      assert now == before + {s[n - 1].key};
    }
  }

  lemma StoredKey(s: seq<Slot>, i: nat)
    requires i < |s| && s[i].Full?
    ensures s[i].key in Keys(s)
  {}
}
