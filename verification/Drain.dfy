/** How a quiet node's backlog empties. Feeding the watermark back drains n records within 2n
    exports exactly when the records of each timestamp fit one frame together; otherwise the
    watermark stays below such a timestamp forever. */
module Drain {
  import opened Bytes
  import opened Lww
  import opened Wire
  import opened Slots
  import opened Sums
  import opened Bounded
  import InsertionSort

  // ----- One export makes progress -----------------------------------------------------

  lemma InOrder(q: Quiet, order: seq<nat>, i: nat) returns (e: nat)
    requires q.Ok() && Order(q.s, q.wm, order) && i in q.Backlog()
    ensures e < |order| && order[e] == i
  {
    assert i in order;
    e :| 0 <= e < |order| && order[e] == i;
  }

  lemma CarriedInBacklog(q: Quiet, order: seq<nat>, k: nat)
    requires q.Ok() && Order(q.s, q.wm, order) && k <= |order|
    ensures Carried(order, k) <= q.Backlog()
    ensures Load(q.s, order, k) == Sum(Carried(order, k), SizeAt(q.s))
    ensures |Carried(order, k)| == k
  {
    LoadIsSum(q.s, order, k);
    CarriedSize(order, k);
  }

  /** While some record is overdue, the first one carried is. */
  lemma OverdueShrinks(q: Quiet, q': Quiet, order: seq<nat>, k: nat)
    requires q.Ok() && q.Overdue() != {} && Exported(q, q', order, k)
    ensures |q'.Overdue()| < |q.Overdue()|
  {
    var x :| x in q.Overdue();
    var e := InOrder(q, order, x);
    assert order[0] in q.Overdue() by {
      assert e == 0 || Before(q.s[order[0]], q.s[order[e]]);
      assert order[0] in EligibleSet(q.s, q.wm);
    }
    ExportedBasics(q, q', order, k);
    ExportedMarks(q, q', order, k);
    assert order[0] in Carried(order, k);
    hide Exported, Order, Window;
    SubsetSize(q'.Overdue(), q.Overdue());
  }

  lemma SizesPositive(q: Quiet)
    requires q.Ok()
    ensures forall i :: SizeAt(q.s)(i) >= 0
  {}

  /** A window inside a tie that fits is within the cap. */
  lemma TieBounds(q: Quiet, order: seq<nat>, j: nat, t: U64)
    requires q.Ok() && Order(q.s, q.wm, order) && 2 <= j <= |order|
    requires Carried(order, j) <= q.Tied(t) && q.TieFits(t)
    ensures q.base + Load(q.s, order, j) <= q.cap
  {
    CarriedInBacklog(q, order, j);
    SizesPositive(q);
    hide Order, Load, Sum, SizeAt, Carried;
    SubsetSize(Carried(order, j), q.Tied(t));
    SumSubset(Carried(order, j), q.Tied(t), SizeAt(q.s));
  }

  lemma ByTimestamp(q: Quiet, order: seq<nat>)
    requires q.Ok() && q.Overdue() == {} && Order(q.s, q.wm, order)
    ensures forall d, e :: 0 <= d < e < |order| ==> q.s[order[d]].ts <= q.s[order[e]].ts
  {
    forall e | 0 <= e < |order| ensures q.s[order[e]].lastExport == q.clock {
      assert order[e] in q.Backlog();
      assert order[e] !in q.Overdue();
    }
  }

  lemma TieCarriedWhole(q: Quiet, order: seq<nat>, k: nat)
    requires q.Ok() && q.Overdue() == {} && Order(q.s, q.wm, order) && 1 <= k < |order|
    requires q.TieFits(q.s[order[0]].ts) && q.base + Load(q.s, order, k + 1) > q.cap
    ensures q.s[order[k]].ts > q.s[order[0]].ts
  {
    var t := q.s[order[0]].ts;
    ByTimestamp(q, order);
    if q.s[order[k]].ts == t {
      forall i | i in Carried(order, k + 1) ensures i in q.Tied(t) {
        var e :| 0 <= e < k + 1 && order[e] == i;
      }
      hide Carried, Load;
      TieBounds(q, order, k + 1, t);
    }
  }

  /** With nothing overdue the order is by timestamp, so a lowest tie that fits is carried
      whole and the watermark reaches it. */
  lemma LowestCarried(q: Quiet, q': Quiet, order: seq<nat>, k: nat)
    requires q.Ok() && q.Overdue() == {} && q.Backlog() != {} && Exported(q, q', order, k)
    requires order != [] && order[0] in q.Backlog() && q.TieFits(q.s[order[0]].ts)
    ensures q.s[order[0]].ts <= q'.wm
  {
    SomethingPacked(q, q', order, k);
    ByTimestamp(q, order);
    if k < |order| {
      TieCarriedWhole(q, order, k);
      hide Load, Sum, SizeAt, EligibleSet;
      assert forall e :: k < e < |order| ==> q.s[order[k]].ts <= q.s[order[e]].ts;
    }
  }

  /** Overdue records first, then backlog: every export of a drainable backlog strictly
      decreases their number together. */
  lemma DrainStep(q: Quiet, q': Quiet)
    requires q.Ok() && q.Backlog() != {} && q.TiesFit() && QuietStep(q, q')
    ensures q'.Ok() && q'.TiesFit()
    ensures |q'.Overdue()| + |q'.Backlog()| < |q.Overdue()| + |q.Backlog()|
  {
    hide Order, Window, WatermarkOf, EligibleSet, Mark, Carried, Sized, Sum, SizeAt;
    var order, k :| Exported(q, q', order, k);
    ExportedBasics(q, q', order, k);
    ExportedMarks(q, q', order, k);
    TiesStillFit(q, q', order, k);
    SubsetSize(q'.Backlog(), q.Backlog());
    SubsetSize(q'.Overdue(), q.Overdue());
    if q.Overdue() != {} {
      OverdueShrinks(q, q', order, k);
    } else {
      BacklogShrinks(q, q', order, k);
    }
  }

  lemma TiesStillFit(q: Quiet, q': Quiet, order: seq<nat>, k: nat)
    requires q.Ok() && q.Backlog() != {} && q.TiesFit() && Exported(q, q', order, k)
    ensures q'.Ok() && q'.TiesFit()
  {
    hide Exported, EligibleSet, Sum, SizeAt, Sized;
    ExportedMarks(q, q', order, k);
    forall t: U64 ensures q'.TieFits(t) {
      assert q.TieFits(t);
      TiesKept(q, q', order, k, t);
    }
  }

  /** With nothing overdue, the lowest record leaves the backlog. */
  lemma BacklogShrinks(q: Quiet, q': Quiet, order: seq<nat>, k: nat)
    requires q.Ok() && q.Overdue() == {} && q.Backlog() != {} && q.TiesFit() && Exported(q, q', order, k)
    ensures |q'.Backlog()| < |q.Backlog()|
  {
    ExportedBasics(q, q', order, k);
    assert order[0] in q.Backlog();
    hide Exported, EligibleSet;
    assert q.TieFits(q.s[order[0]].ts);
    LowestCarried(q, q', order, k);
    SubsetSize(q'.Backlog(), q.Backlog());
  }

  // ----- Ties that do not fit ------------------------------------------------------------------

  lemma NotAllCarried(q: Quiet, order: seq<nat>, k: nat, t: U64)
    requires q.Ok() && Order(q.s, q.wm, order) && Window(q.s, order, q.base, q.cap, k) && !q.TieFits(t)
    ensures !(q.Tied(t) <= Carried(order, k))
  {
    if q.Tied(t) <= Carried(order, k) {
      CarriedInBacklog(q, order, k);
      SizesPositive(q);
      hide Order, Sum, SizeAt, Carried;
      SubsetSize(q.Tied(t), Carried(order, k));
      SumSubset(q.Tied(t), Carried(order, k), SizeAt(q.s));
      assert false;
    }
  }

  lemma TieInBacklog(q: Quiet, t: U64)
    requires q.Ok() && !q.TieFits(t)
    ensures q.Backlog() != {}
  {
    if q.Backlog() == {} {
      SubsetSize(q.Tied(t), q.Backlog());
    }
  }

  /** Records of one timestamp that do not fit a frame together are never all carried, so the
      watermark stays below them. */
  lemma StuckStep(q: Quiet, q': Quiet, t: U64)
    requires q.Ok() && !q.TieFits(t) && QuietStep(q, q')
    ensures q'.Ok() && !q'.TieFits(t)
  {
    TieInBacklog(q, t);
    var order, k :| Exported(q, q', order, k);
    NotAllCarried(q, order, k, t);
    var x :| x in q.Tied(t) && x !in Carried(order, k);
    TiesKept(q, q', order, k, t);
    ExportedBasics(q, q', order, k);
    hide Exported, Carried, QuietStep, EligibleSet;
    assert x in q'.Backlog();
  }

  // ----- Every quiet state has a next one -----------------------------------------------------

  lemma {:induction false} WindowFrom(s: seq<Slot>, order: seq<nat>, base: nat, cap: nat, k: nat) returns (n: nat)
    requires Sized(s) && 1 <= k <= |order| && forall j :: 2 <= j <= k ==> base + Load(s, order, j) <= cap
    ensures Window(s, order, base, cap, n)
    decreases |order| - k
  {
    hide Load;
    if k == |order| || base + Load(s, order, k + 1) > cap {
      n := k;
    } else {
      n := WindowFrom(s, order, base, cap, k + 1);
    }
  }

  lemma QuietStepExists(q: Quiet) returns (q': Quiet)
    requires q.Ok()
    ensures QuietStep(q, q')
  {
    if q.Backlog() == {} {
      q' := q;
    } else {
      hide Load, Mark, Encodable;
      var order := InsertionSort.Sort(EligibleList(q.s, q.wm, |q.s|), LaterExport(q.s));
      SortedIsOrder(q.s, q.wm);
      var x :| x in q.Backlog();
      assert x in order;
      var k := WindowFrom(q.s, order, q.base, q.cap, 1);
      q' := q.(s := Mark(q.s, Carried(order, k), q.clock), wm := WatermarkOf(q.s, order, k));
      assert Exported(q, q', order, k);
    }
  }

  // ----- Runs -------------------------------------------------------------------------------------

  ghost predicate QuietRun(run: seq<Quiet>)
  {
    forall n :: 0 <= n < |run| ==> run[n].Ok() && (n + 1 < |run| ==> QuietStep(run[n], run[n + 1]))
  }

  lemma {:induction false} DrainsAfter(run: seq<Quiet>)
    requires run != [] && QuietRun(run) && run[0].TiesFit()
    requires |run| > |run[0].Overdue()| + |run[0].Backlog()|
    ensures run[|run| - 1].Backlog() == {}
    decreases |run|
  {
    hide QuietStep;
    if |run| > 1 {
      assert QuietStep(run[0], run[0 + 1]);
      var rest := run[1..];
      assert QuietRun(rest) by {
        forall n | 0 <= n < |rest| ensures rest[n].Ok() && (n + 1 < |rest| ==> QuietStep(rest[n], rest[n + 1])) {
          assert rest[n] == run[n + 1];
        }
      }
      if run[0].Backlog() == {} {
        EmptyStays(run[0], run[1]);
      } else {
        DrainStep(run[0], run[1]);
      }
      DrainsAfter(rest);
    }
  }

  lemma EmptyStays(q: Quiet, q': Quiet)
    requires q.Ok() && q.Backlog() == {} && QuietStep(q, q')
    ensures q' == q && |q.Overdue()| == 0
  {
    assert q.Overdue() == {};
  }

  lemma {:induction false} StuckForever(run: seq<Quiet>, t: U64, n: nat)
    requires n < |run| && QuietRun(run) && !run[0].TieFits(t)
    ensures !run[n].TieFits(t) && run[n].Backlog() != {}
  {
    hide QuietStep;
    if n > 0 {
      StuckForever(run, t, n - 1);
      assert QuietStep(run[n - 1], run[n - 1 + 1]);
      StuckStep(run[n - 1], run[n], t);
    }
    TieInBacklog(run[n], t);
  }

  /** A quiet node with n eligible records has nothing left after 2n exports if and only if
      the records of each timestamp fit one frame together; when some do not, the backlog is
      nonempty after any number of exports. */
  lemma DrainsIff(run: seq<Quiet>)
    requires run != [] && QuietRun(run)
    ensures run[0].TiesFit() && |run| > 2 * |run[0].Backlog()| ==> run[|run| - 1].Backlog() == {}
    ensures !run[0].TiesFit() ==> forall n :: 0 <= n < |run| ==> run[n].Backlog() != {}
  {
    if run[0].TiesFit() && |run| > 2 * |run[0].Backlog()| {
      SubsetSize(run[0].Overdue(), run[0].Backlog());
      DrainsAfter(run);
    }
    if !run[0].TiesFit() {
      var t :| !run[0].TieFits(t);
      forall n | 0 <= n < |run| ensures run[n].Backlog() != {} {
        StuckForever(run, t, n);
      }
    }
  }

  /** Pairwise distinct timestamps always fit. */
  lemma DistinctTimestampsFit(q: Quiet)
    requires q.Ok()
    requires forall i, j :: i in q.Backlog() && j in q.Backlog() && i != j ==> q.s[i].ts != q.s[j].ts
    ensures q.TiesFit()
  {
    forall t: U64 ensures q.TieFits(t) {
      if x: nat :| x in q.Tied(t) {
        SubsetSize(q.Tied(t), {x});
      } else {
        assert q.Tied(t) == {};
      }
    }
  }
}
