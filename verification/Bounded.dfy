/** The byte-capped shared-delta exporter: eligible records are packed least recently exported
    first until one does not fit, and the caller's watermark moves only as far as no record
    left behind is skipped. */
module Bounded {
  import opened Bytes
  import opened Cbor
  import opened Lww
  import opened Wire
  import opened Slots
  import opened Sums
  import InsertionSort

  // ----- One export ---------------------------------------------------------------------

  predicate Eligible(sl: Slot, since: U64)
  {
    sl.used && sl.owner == SHARED_OWNER && sl.name != [] && sl.ts > since
  }

  /** The packing order: (last_export_ts, timestamp) ascending. */
  predicate Before(a: Slot, b: Slot)
  {
    a.lastExport < b.lastExport || (a.lastExport == b.lastExport && a.ts <= b.ts)
  }

  predicate Sized(s: seq<Slot>)
  {
    forall i :: 0 <= i < |s| ==> Encodable(RecOf(s[i]))
  }

  ghost function EligibleSet(s: seq<Slot>, since: U64): set<nat>
  {
    set i: nat | i < |s| && Eligible(s[i], since)
  }

  /** `order` lists every eligible slot once, in packing order. */
  ghost predicate Order(s: seq<Slot>, since: U64, order: seq<nat>)
  {
    && (forall e :: 0 <= e < |order| ==> order[e] in EligibleSet(s, since))
    && (forall i :: i in EligibleSet(s, since) ==> i in order)
    && (forall d, e :: 0 <= d < e < |order| ==> order[d] != order[e])
    && (forall d, e :: 0 <= d < e < |order| ==> Before(s[order[d]], s[order[e]]))
  }

  ghost function SizeAt(s: seq<Slot>): nat -> int
    requires Sized(s)
  {
    (i: nat) => if i < |s| then RecordSize(RecOf(s[i]), true) else 0
  }

  /** Bytes of the first `k` records in packing order. */
  ghost function Load(s: seq<Slot>, order: seq<nat>, k: nat): int
    requires Sized(s) && k <= |order|
  {
    if k == 0 then 0 else Load(s, order, k - 1) + SizeAt(s)(order[k - 1])
  }

  /** The first `k` records are the packed window: at least one if there is one, every later
      one within the cap, and the next one would not fit. */
  ghost predicate Window(s: seq<Slot>, order: seq<nat>, base: nat, cap: nat, k: nat)
    requires Sized(s)
  {
    && k <= |order| && (order != [] ==> k >= 1)
    && (forall j :: 2 <= j <= k ==> base + Load(s, order, j) <= cap)
    && (k < |order| ==> base + Load(s, order, k + 1) > cap)
  }

  ghost function Carried(order: seq<nat>, k: nat): set<nat>
    requires k <= |order|
  {
    set e | 0 <= e < k :: order[e]
  }

  /** Carried slots remember the clock of this export. */
  ghost function Mark(s: seq<Slot>, carried: set<nat>, clock: U64): (s': seq<Slot>)
    ensures |s'| == |s|
  {
    seq(|s|, i requires 0 <= i < |s| => if i in carried then s[i].(lastExport := clock) else s[i])
  }

  const NONE_LEFT: U64 := 0xFFFF_FFFF_FFFF_FFFF

  function HighCarried(s: seq<Slot>, order: seq<nat>, k: nat): (h: U64)
    requires k <= |order| && forall e :: 0 <= e < |order| ==> order[e] < |s|
    ensures forall e :: 0 <= e < k ==> s[order[e]].ts <= h
    ensures k > 0 ==> exists e :: 0 <= e < k && s[order[e]].ts == h
  {
    if k == 0 then 0 else Max(HighCarried(s, order, k - 1), s[order[k - 1]].ts)
  }

  function LowLeft(s: seq<Slot>, order: seq<nat>, k: nat): (l: U64)
    requires k <= |order| && forall e :: 0 <= e < |order| ==> order[e] < |s|
    ensures forall e :: k <= e < |order| ==> l <= s[order[e]].ts
    ensures l == NONE_LEFT || exists e :: k <= e < |order| && s[order[e]].ts == l
    decreases |order| - k
  {
    if k == |order| then NONE_LEFT
    else
      var rest := LowLeft(s, order, k + 1);
      if s[order[k]].ts < rest then s[order[k]].ts else rest
  }

  /** The new watermark: the highest carried timestamp, clamped to just below the lowest one
      left behind. */
  function WatermarkOf(s: seq<Slot>, order: seq<nat>, k: nat): U64
    requires k <= |order| && forall e :: 0 <= e < |order| ==> order[e] < |s| && s[order[e]].ts > 0
  {
    var h, l := HighCarried(s, order, k), LowLeft(s, order, k);
    if l != NONE_LEFT && l - 1 < h then l - 1 else h
  }

  // ----- How the exporter finds the order and the window ----------------------------------

  /** Header bytes budgeted by the exporter: worst-case mark, digest and count. */
  function HeaderBudget(id: U64): nat
  {
    UintSize(5) + UintSize(id) + UintSize(SHARED_OWNER) + 9 + 9 + 3
  }

  function EligibleList(s: seq<Slot>, since: U64, n: nat): (r: seq<nat>)
    requires n <= |s|
    ensures |r| <= n
    ensures forall e :: 0 <= e < |r| ==> r[e] < n && Eligible(s[r[e]], since)
    ensures forall d, e :: 0 <= d < e < |r| ==> r[d] < r[e]
    ensures forall i :: 0 <= i < n && Eligible(s[i], since) ==> i in r
  {
    if n == 0 then [] else EligibleList(s, since, n - 1) + if Eligible(s[n - 1], since) then [n - 1] else []
  }

  function ExportTs(s: seq<Slot>, i: nat): U64 { if i < |s| then s[i].lastExport else 0 }

  function RecordTs(s: seq<Slot>, i: nat): U64 { if i < |s| then s[i].ts else 0 }

  /** The guard of the exporter's insertion sort. */
  function LaterExport(s: seq<Slot>): (nat, nat) -> bool
  {
    (i: nat, j: nat) =>
      ExportTs(s, i) > ExportTs(s, j) || (ExportTs(s, i) == ExportTs(s, j) && RecordTs(s, i) > RecordTs(s, j))
  }

  lemma LaterIsWeakOrder(s: seq<Slot>)
    ensures InsertionSort.WeakOrder(LaterExport(s))
    ensures forall i: nat, j: nat :: i < |s| && j < |s| && !LaterExport(s)(i, j) ==> Before(s[i], s[j])
  {}

  lemma SortedIsOrder(s: seq<Slot>, since: U64)
    ensures Order(s, since, InsertionSort.Sort(EligibleList(s, since, |s|), LaterExport(s)))
  {
    LaterIsWeakOrder(s);
    hide LaterExport, EligibleList, InsertionSort.Sort, Eligible, Before, InsertionSort.WeakOrder;
    var xs, above := EligibleList(s, since, |s|), LaterExport(s);
    var order := InsertionSort.Sort(xs, above);
    InsertionSort.SortIsStable(xs, above, (i: nat, j: nat) => i < j);
    InsertionSort.SortMembers(xs, above);
    forall e | 0 <= e < |order| ensures order[e] in EligibleSet(s, since) {
      assert order[e] in xs;
    }
    forall d, e | 0 <= d < e < |order| ensures order[d] != order[e] && Before(s[order[d]], s[order[e]]) {
      assert !above(order[d], order[e]);
      assert order[d] in EligibleSet(s, since) && order[e] in EligibleSet(s, since);
    }
  }

  lemma {:induction false} CarriedSize(order: seq<nat>, k: nat)
    requires k <= |order| && forall d, e :: 0 <= d < e < |order| ==> order[d] != order[e]
    ensures |Carried(order, k)| == k
  {
    if k > 0 {
      CarriedSize(order, k - 1);
      assert Carried(order, k) == Carried(order, k - 1) + {order[k - 1]};
    }
  }

  // ----- What one export keeps --------------------------------------------------------------

  /** A carried record and every record left out have the timestamp the code uses for "none
      left"; the clamp then does not see that some are left out. */
  ghost predicate TopsCollide(s: seq<Slot>, order: seq<nat>, k: nat)
    requires k <= |order| && forall e :: 0 <= e < |order| ==> order[e] < |s|
  {
    && (exists d :: 0 <= d < k && s[order[d]].ts == NONE_LEFT)
    && k < |order| && (forall e :: k <= e < |order| ==> s[order[e]].ts == NONE_LEFT)
  }

  /** The watermark never moves back and never passes the clock; and whatever it passes was
      carried, so that an eligible record left out is still eligible, if and only if it is not the
      case that the largest possible timestamp is carried and is all that is left out. */
  lemma ExportSafe(s: seq<Slot>, clock: U64, since: U64, order: seq<nat>, k: nat)
    requires Order(s, since, order) && 0 < k <= |order|
    requires forall i :: 0 <= i < |s| && s[i].used ==> s[i].ts <= clock
    ensures var m := WatermarkOf(s, order, k);
            && since <= m <= clock
            && ((forall i :: i in EligibleSet(s, since) ==> (i in Carried(order, k) || i in EligibleSet(s, m)))
                <==> !TopsCollide(s, order, k))
            && EligibleSet(s, m) <= EligibleSet(s, since)
            && (k < |order| || forall i :: i in EligibleSet(s, since) ==> s[i].ts <= m)
  {
    hide EligibleSet, Carried, TopsCollide, WatermarkOf;
    WatermarkBounds(s, clock, since, order, k);
    LeftStays(s, since, order, k);
  }

  lemma WatermarkBounds(s: seq<Slot>, clock: U64, since: U64, order: seq<nat>, k: nat)
    requires Order(s, since, order) && 0 < k <= |order|
    requires forall i :: 0 <= i < |s| && s[i].used ==> s[i].ts <= clock
    ensures var m := WatermarkOf(s, order, k);
            && since <= m <= clock && EligibleSet(s, m) <= EligibleSet(s, since)
            && (k < |order| || forall i :: i in EligibleSet(s, since) ==> s[i].ts <= m)
  {
    assert order[0] in EligibleSet(s, since);
  }

  lemma LeftStays(s: seq<Slot>, since: U64, order: seq<nat>, k: nat)
    requires Order(s, since, order) && 0 < k <= |order|
    ensures (forall i :: i in EligibleSet(s, since) ==>
               (i in Carried(order, k) || i in EligibleSet(s, WatermarkOf(s, order, k))))
            <==> !TopsCollide(s, order, k)
  {
    if TopsCollide(s, order, k) {
      Skipped(s, since, order, k);
    } else {
      forall i | i in EligibleSet(s, since)
        ensures i in Carried(order, k) || i in EligibleSet(s, WatermarkOf(s, order, k))
      {
        var e :| 0 <= e < |order| && order[e] == i;
        if e >= k { LeftAbove(s, order, k, e); }
      }
    }
  }

  lemma Skipped(s: seq<Slot>, since: U64, order: seq<nat>, k: nat)
    requires Order(s, since, order) && 0 < k <= |order| && TopsCollide(s, order, k)
    ensures exists i :: i in EligibleSet(s, since) && i !in Carried(order, k)
                        && i !in EligibleSet(s, WatermarkOf(s, order, k))
  {
    assert order[k] in EligibleSet(s, since);
    NotCarried(order, k, k);
    assert LowLeft(s, order, k) == NONE_LEFT && HighCarried(s, order, k) == NONE_LEFT;
    hide Order, Carried, TopsCollide;
    assert order[k] !in EligibleSet(s, NONE_LEFT);
  }

  lemma NotCarried(order: seq<nat>, k: nat, e: nat)
    requires k <= e < |order| && forall c, d :: 0 <= c < d < |order| ==> order[c] != order[d]
    ensures order[e] !in Carried(order, k)
  {}

  lemma LeftAbove(s: seq<Slot>, order: seq<nat>, k: nat, e: nat)
    requires 0 < k <= e < |order| && forall d :: 0 <= d < |order| ==> order[d] < |s| && s[order[d]].ts > 0
    requires !TopsCollide(s, order, k)
    ensures s[order[e]].ts > WatermarkOf(s, order, k)
  {
    var l, h := LowLeft(s, order, k), HighCarried(s, order, k);
    assert l == NONE_LEFT ==> forall d :: k <= d < |order| ==> s[order[d]].ts == NONE_LEFT;
  }

  /** Below the largest clock there is no such timestamp. */
  lemma NoTops(s: seq<Slot>, clock: U64, since: U64, order: seq<nat>, k: nat)
    requires Order(s, since, order) && k <= |order| && clock < NONE_LEFT
    requires forall i :: 0 <= i < |s| && s[i].used ==> s[i].ts <= clock
    ensures !TopsCollide(s, order, k)
  {}

  lemma MarkSame(s: seq<Slot>, carried: set<nat>, clock: U64, since: U64)
    ensures EligibleSet(Mark(s, carried, clock), since) == EligibleSet(s, since)
    ensures Sized(s) ==> Sized(Mark(s, carried, clock))
    ensures forall i :: 0 <= i < |s| ==> RecOf(Mark(s, carried, clock)[i]) == RecOf(s[i])
  {
    hide Encodable;
    var s' := Mark(s, carried, clock);
    assert forall i :: 0 <= i < |s| ==> RecOf(s'[i]) == RecOf(s[i]);
  }

  lemma MarkKeepsView(s: seq<Slot>, carried: set<nat>, clock: U64)
    ensures View(Mark(s, carried, clock), SHARED_OWNER) == View(s, SHARED_OWNER)
  {
    var s' := Mark(s, carried, clock);
    assert forall j :: 0 <= j < |s| ==> RecOf(s'[j]) == RecOf(s[j]) && s'[j].key == s[j].key
                                        && s'[j].used == s[j].used && s'[j].owner == s[j].owner;
    hide Mark;
    forall k: U32
      ensures k in View(s', SHARED_OWNER) <==> k in View(s, SHARED_OWNER)
      ensures k in View(s, SHARED_OWNER) ==> View(s', SHARED_OWNER)[k] == View(s, SHARED_OWNER)[k]
    {
      assert Find(s', k, SHARED_OWNER) == Find(s, k, SHARED_OWNER);
      ViewHas(s', k, SHARED_OWNER);
      ViewHas(s, k, SHARED_OWNER);
    }
  }

  // ----- Draining a backlog -------------------------------------------------------------------

  /** An exporter nobody writes to: slots, watermark, and the fixed clock, header and cap. */
  datatype Quiet = Quiet(s: seq<Slot>, wm: U64, clock: U64, base: nat, cap: nat)
  {
    ghost function Backlog(): set<nat> { EligibleSet(s, wm) }

    /** Eligible records not yet carried at the current clock. */
    ghost function Overdue(): set<nat> { set i | i in Backlog() && s[i].lastExport < clock }

    ghost function Tied(t: U64): set<nat> { set i | i in Backlog() && s[i].ts == t }

    ghost predicate Ok()
    {
      Sized(s) && clock < NONE_LEFT && forall i :: 0 <= i < |s| ==> s[i].ts <= clock && s[i].lastExport <= clock
    }

    /** The records of one timestamp fit one frame together. */
    ghost predicate TieFits(t: U64)
      requires Sized(s)
    {
      |Tied(t)| <= 1 || base + Sum(Tied(t), SizeAt(s)) <= cap
    }

    ghost predicate TiesFit()
      requires Sized(s)
    {
      forall t :: TieFits(t)
    }
  }

  ghost predicate Exported(q: Quiet, q': Quiet, order: seq<nat>, k: nat)
    requires q.Ok()
  {
    && Order(q.s, q.wm, order) && Window(q.s, order, q.base, q.cap, k)
    && q' == q.(s := Mark(q.s, Carried(order, k), q.clock), wm := WatermarkOf(q.s, order, k))
  }

  /** One gossip slot: export if there is anything new, feeding the watermark back. */
  ghost predicate QuietStep(q: Quiet, q': Quiet)
    requires q.Ok()
  {
    if q.Backlog() == {} then q' == q else exists order, k :: Exported(q, q', order, k)
  }

  lemma {:induction false} LoadIsSum(s: seq<Slot>, order: seq<nat>, k: nat)
    requires Sized(s) && k <= |order|
    requires forall d, e :: 0 <= d < e < |order| ==> order[d] != order[e]
    ensures Load(s, order, k) == Sum(Carried(order, k), SizeAt(s))
  {
    hide SizeAt;
    if k == 0 {
      assert Carried(order, k) == {};
    } else {
      LoadIsSum(s, order, k - 1);
      assert order[k - 1] in Carried(order, k);
      assert Carried(order, k) - {order[k - 1]} == Carried(order, k - 1);
      SumPick(Carried(order, k), SizeAt(s), order[k - 1]);
    }
  }

  /** The watermark moves forward; the records above it stay, and the others were carried. */
  lemma ExportedBasics(q: Quiet, q': Quiet, order: seq<nat>, k: nat)
    requires q.Ok() && q.Backlog() != {} && Exported(q, q', order, k)
    ensures order != [] && 1 <= k <= |order| && q.wm <= q'.wm
    ensures q'.Backlog() == set i | i in q.Backlog() && q.s[i].ts > q'.wm
    ensures forall i :: i in q.Backlog() ==> i in Carried(order, k) || i in q'.Backlog()
  {
    hide Order, Window, WatermarkOf, EligibleSet, RecordSize, Encodable, Mark, Carried;
    SomethingPacked(q, q', order, k);
    ExportSafe(q.s, q.clock, q.wm, order, k);
    NoTops(q.s, q.clock, q.wm, order, k);
    MarkSame(q.s, Carried(order, k), q.clock, q'.wm);
    EligibleAbove(q.s, q.wm, q'.wm);
  }

  /** Only the export marks of carried slots change, and a carried slot is not overdue. */
  lemma ExportedMarks(q: Quiet, q': Quiet, order: seq<nat>, k: nat)
    requires q.Ok() && q.Backlog() != {} && Exported(q, q', order, k)
    ensures q'.Ok() && |q'.s| == |q.s| && forall i :: 0 <= i < |q.s| ==> RecOf(q'.s[i]) == RecOf(q.s[i])
    ensures q'.Overdue() <= q.Overdue() && forall i :: i in Carried(order, k) ==> i !in q'.Overdue()
  {
    hide Order, Window, WatermarkOf, EligibleSet, RecordSize, Encodable, Carried, Sized;
    ExportedBasics(q, q', order, k);
    MarkSame(q.s, Carried(order, k), q.clock, q'.wm);
    EligibleAbove(q.s, q.wm, q.wm);
    forall i | i in q'.Overdue() ensures i in q.Overdue() && i !in Carried(order, k) {
      assert i in q.Backlog();
    }
  }

  lemma SomethingPacked(q: Quiet, q': Quiet, order: seq<nat>, k: nat)
    requires q.Ok() && q.Backlog() != {} && Exported(q, q', order, k)
    ensures order != [] && 1 <= k <= |order|
  {
    var x :| x in q.Backlog();
    assert x in order;
  }

  lemma EligibleAbove(s: seq<Slot>, since: U64, m: U64)
    requires since <= m
    ensures forall i :: i in EligibleSet(s, since) ==> i < |s|
    ensures forall i :: i in EligibleSet(s, m) <==> i in EligibleSet(s, since) && s[i].ts > m
  {}

  lemma SameSizes(q: Quiet, q': Quiet)
    requires q.Ok() && q'.Ok() && |q'.s| == |q.s|
    requires forall i :: 0 <= i < |q.s| ==> RecOf(q'.s[i]) == RecOf(q.s[i])
    ensures forall x: set<nat> :: Sum(x, SizeAt(q'.s)) == Sum(x, SizeAt(q.s))
  {
    hide RecordSize, Sum;
    forall x: set<nat> ensures Sum(x, SizeAt(q'.s)) == Sum(x, SizeAt(q.s)) {
      SumAgree(x, SizeAt(q'.s), SizeAt(q.s));
    }
  }

  /** Above the new watermark nothing changes but the export marks, so ties stay as they were. */
  lemma TiesKept(q: Quiet, q': Quiet, order: seq<nat>, k: nat, t: U64)
    requires q.Ok() && q.Backlog() != {} && Exported(q, q', order, k)
    ensures q'.Ok() && q'.base == q.base && q'.cap == q.cap
    ensures t > q'.wm ==> q'.Tied(t) == q.Tied(t) && (q'.TieFits(t) <==> q.TieFits(t))
    ensures t <= q'.wm ==> q'.Tied(t) == {} && q'.TieFits(t)
  {
    ExportedBasics(q, q', order, k);
    ExportedMarks(q, q', order, k);
    hide Order, Window, WatermarkOf, Mark, Sum, SizeAt, EligibleSet;
    SameSizes(q, q');
    if t > q'.wm {
      assert q'.Tied(t) == q.Tied(t);
    } else {
      assert q'.Tied(t) == {};
    }
  }
}
