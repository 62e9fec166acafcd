/** Choosing goals by utility: the single best goal, and the ranking a caller walks when the best
    one cannot be planned. `open(g)` says that goal `g` was evaluated and is not satisfied;
    utilities are reals. */
module Goals {
  import opened Bytes
  import InsertionSort

  predicate Candidate(open: nat -> bool, util: nat -> real, threshold: real, g: nat)
  {
    open(g) && util(g) > threshold
  }

  /** The candidates among goals 0 .. n - 1, in index order. */
  function Candidates(n: nat, open: nat -> bool, util: nat -> real, threshold: real): (r: seq<nat>)
  {
    if n == 0 then [] else
      Candidates(n - 1, open, util, threshold) + if Candidate(open, util, threshold, n - 1) then [n - 1] else []
  }

  lemma {:induction false} CandidatesList(n: nat, open: nat -> bool, util: nat -> real, threshold: real)
    ensures var r := Candidates(n, open, util, threshold);
            && (forall e :: 0 <= e < |r| ==> r[e] < n && Candidate(open, util, threshold, r[e]))
            && (forall g: nat :: g < n && Candidate(open, util, threshold, g) ==> g in r)
            && (forall d, e :: 0 <= d < e < |r| ==> r[d] < r[e])
  {
    if n > 0 {
      CandidatesList(n - 1, open, util, threshold);
      var before, r := Candidates(n - 1, open, util, threshold), Candidates(n, open, util, threshold);
      if Candidate(open, util, threshold, n - 1) {
        assert r == before + [n - 1];
        assert r[|before|] == n - 1;
      } else {
        assert r == before;
      }
      hide Candidates;
    }
  }

  lemma {:induction false} NoCandidates(n: nat, open: nat -> bool, util: nat -> real, threshold: real)
    requires forall g: nat :: g < n ==> !Candidate(open, util, threshold, g)
    ensures Candidates(n, open, util, threshold) == []
  {
    if n > 0 {
      NoCandidates(n - 1, open, util, threshold);
    }
  }

  /** The guard of the ranking's insertion sort. */
  function Worse(util: nat -> real): (nat, nat) -> bool
  {
    (y: nat, x: nat) => util(y) < util(x)
  }

  /** `r` is ordered by utility, highest first, and by index among equals. */
  ghost predicate Ranked(util: nat -> real, r: seq<nat>)
  {
    forall d, e :: 0 <= d < e < |r| ==> util(r[d]) > util(r[e]) || (util(r[d]) == util(r[e]) && r[d] < r[e])
  }

  /** The collecting loop: the first `cap` candidates by index. */
  method Collect(n: nat, open: nat -> bool, util: nat -> real, threshold: real, buf: array<nat>) returns (k: nat)
    modifies buf
    ensures k <= buf.Length
    ensures var all := Candidates(n, open, util, threshold);
            buf[..k] == if |all| <= buf.Length then all else all[..buf.Length]
  {
    k := 0;
    var g := 0;
    while g < n && k < buf.Length
      invariant g <= n && k <= buf.Length && buf[..k] == Candidates(g, open, util, threshold)
    {
      if Candidate(open, util, threshold, g) {
        ghost var before := buf[..k];
        buf[k] := g;
        k := k + 1;
        assert buf[..k] == before + [g];
      }
      g := g + 1;
    }
    CandidatesPrefix(g, n, open, util, threshold);
  }

  /** fleece_goap_rank_goals. A small buffer keeps the first `cap` candidates by index, not the
      best ones. */
  method RankGoals(n: nat, open: nat -> bool, util: nat -> real, threshold: real, cap: nat) returns (out: seq<nat>)
    ensures var all := Candidates(n, open, util, threshold);
            Ranked(util, out) && multiset(out) == multiset(if |all| <= cap then all else all[..cap])
    ensures forall g :: g in out ==> g < n && open(g) && util(g) > threshold
    ensures forall g: nat :: g < n && open(g) && util(g) > threshold && g !in out ==>
                             |out| == cap && forall h :: h in out ==> h < g
  {
    hide Candidates, InsertionSort.Sort;
    var buf := new nat[cap];
    var k := Collect(n, open, util, threshold, buf);
    CandidatesList(n, open, util, threshold);
    SortRanks(util, buf[..k]);
    InsertionSort.SortMultiset(buf[..k], Worse(util));
    ghost var kept := buf[..k];
    InsertionSort.SortArray(buf, k, Worse(util));
    out := buf[..k];
    KeptFirst(n, open, util, threshold, cap, kept, out);
  }

  lemma KeptFirst(n: nat, open: nat -> bool, util: nat -> real, threshold: real, cap: nat,
                  kept: seq<nat>, out: seq<nat>)
    requires var all := Candidates(n, open, util, threshold); kept == if |all| <= cap then all else all[..cap]
    requires multiset(out) == multiset(kept)
    ensures |out| == |kept| && forall g :: g in out ==> g < n && open(g) && util(g) > threshold
    ensures forall g: nat :: g < n && open(g) && util(g) > threshold && g !in out ==>
                             |out| == cap && forall h :: h in out ==> h < g
  {
    CandidatesList(n, open, util, threshold);
    hide Candidates;
    assert |out| == |multiset(out)| == |kept|;
    forall g ensures g in out <==> g in kept {
      assert g in out <==> g in multiset(out);
    }
    var all := Candidates(n, open, util, threshold);
    forall g: nat | g < n && open(g) && util(g) > threshold && g !in out
      ensures |out| == cap && forall h :: h in out ==> h < g
    {
      assert Candidate(open, util, threshold, g);
      var j :| 0 <= j < |all| && all[j] == g;
      assert j >= cap;
    }
  }

  lemma {:induction false} CandidatesPrefix(g: nat, n: nat, open: nat -> bool, util: nat -> real, threshold: real)
    requires g <= n
    ensures Candidates(g, open, util, threshold) <= Candidates(n, open, util, threshold)
    decreases n
  {
    if g < n {
      CandidatesPrefix(g, n - 1, open, util, threshold);
    }
  }

  lemma SortRanks(util: nat -> real, xs: seq<nat>)
    requires forall d, e :: 0 <= d < e < |xs| ==> xs[d] < xs[e]
    ensures Ranked(util, InsertionSort.Sort(xs, Worse(util)))
  {
    hide InsertionSort.Sort;
    InsertionSort.SortIsStable(xs, Worse(util), (i: nat, j: nat) => i < j);
    var r := InsertionSort.Sort(xs, Worse(util));
    forall d, e | 0 <= d < e < |r| ensures util(r[d]) > util(r[e]) || (util(r[d]) == util(r[e]) && r[d] < r[e]) {
      assert !Worse(util)(r[d], r[e]);
    }
  }

  /** `g` is the first goal of the highest utility among the candidates. */
  ghost predicate IsBest(n: nat, open: nat -> bool, util: nat -> real, threshold: real, g: nat)
  {
    && g < n && Candidate(open, util, threshold, g)
    && forall h: nat :: h < n && Candidate(open, util, threshold, h) ==>
         util(h) < util(g) || (util(h) == util(g) && g <= h)
  }

  /** fleece_goap_select_goal */
  method SelectGoal(n: nat, open: nat -> bool, util: nat -> real, threshold: real) returns (best: Option<nat>)
    ensures best.Some? ==> IsBest(n, open, util, threshold, best.value)
    ensures best.None? <==> Candidates(n, open, util, threshold) == []
    ensures best.None? <==> forall g: nat :: g < n ==> !open(g) || util(g) <= threshold
    ensures best.Some? ==> open(best.value) && util(best.value) > threshold
  {
    best := None;
    var top := threshold;
    for g := 0 to n
      invariant best.None? ==> top == threshold && forall h: nat :: h < g ==> !Candidate(open, util, threshold, h)
      invariant best.Some? ==> top == util(best.value) && IsBest(g, open, util, threshold, best.value)
    {
      if open(g) && util(g) > top {
        top, best := util(g), Some(g);
      }
    }
    if best.None? {
      NoCandidates(n, open, util, threshold);
      forall g: nat | g < n ensures !open(g) || util(g) <= threshold {
        assert !Candidate(open, util, threshold, g);
      }
    } else {
      CandidatesList(n, open, util, threshold);
      assert best.value in Candidates(n, open, util, threshold);
      assert open(best.value) && util(best.value) > threshold;
    }
  }

  /** With room for every candidate, the head of the ranking is the selected goal. */
  lemma HeadIsBest(n: nat, open: nat -> bool, util: nat -> real, threshold: real, out: seq<nat>)
    requires Ranked(util, out) && multiset(out) == multiset(Candidates(n, open, util, threshold))
    ensures out == [] <==> Candidates(n, open, util, threshold) == []
    ensures out != [] ==> IsBest(n, open, util, threshold, out[0])
  {
    var all := Candidates(n, open, util, threshold);
    CandidatesList(n, open, util, threshold);
    assert |out| == |multiset(out)| == |all|;
    assert forall g :: g in all <==> g in multiset(all);
    if out != [] {
      assert out[0] in multiset(out);
      forall h: nat | h < n && Candidate(open, util, threshold, h)
        ensures util(h) < util(out[0]) || (util(h) == util(out[0]) && out[0] <= h)
      {
        assert h in multiset(out);
        var e :| 0 <= e < |out| && out[e] == h;
      }
    }
  }

  /** A best goal is unique, so the ranking and the selection agree. */
  lemma BestIsUnique(n: nat, open: nat -> bool, util: nat -> real, threshold: real, g: nat, h: nat)
    requires IsBest(n, open, util, threshold, g) && IsBest(n, open, util, threshold, h)
    ensures g == h
  {}

  lemma HeadsEqual(util: nat -> real, a: seq<nat>, b: seq<nat>)
    requires Ranked(util, a) && Ranked(util, b) && multiset(a) == multiset(b) && a != [] && b != []
    ensures a[0] == b[0]
  {
    assert a[0] in multiset(b) && b[0] in multiset(a);
    var i :| 0 <= i < |a| && a[i] == b[0];
    var j :| 0 <= j < |b| && b[j] == a[0];
  }

  /** A ranking is determined by the goals it ranks. */
  lemma {:induction false} RankingUnique(util: nat -> real, a: seq<nat>, b: seq<nat>)
    requires Ranked(util, a) && Ranked(util, b) && multiset(a) == multiset(b)
    ensures a == b
  {
    hide Ranked;
    assert |a| == |multiset(a)| && |b| == |multiset(b)|;
    if a != [] {
      HeadsEqual(util, a, b);
      RankedTail(util, a);
      RankedTail(util, b);
      RankingUnique(util, a[1..], b[1..]);
      assert a == [a[0]] + a[1..] && b == [b[0]] + b[1..];
    }
  }

  lemma RankedTail(util: nat -> real, a: seq<nat>)
    requires Ranked(util, a) && a != []
    ensures Ranked(util, a[1..]) && multiset(a[1..]) == multiset(a) - multiset{a[0]}
  {
    assert a == [a[0]] + a[1..];
  }

  // ----- Buffers smaller than the candidates ---------------------------------------------------

  lemma MembersOf(a: seq<nat>, b: seq<nat>)
    requires multiset(a) == multiset(b)
    ensures |a| == |b| && forall x :: x in a <==> x in b
  {
    assert |a| == |multiset(a)| && |b| == |multiset(b)|;
    assert forall x :: x in a <==> x in multiset(a);
    assert forall x :: x in b <==> x in multiset(b);
  }

  /** Every candidate that fits the buffer is at least as useful as every one left out. */
  ghost predicate BestFirst(util: nat -> real, all: seq<nat>, cap: nat)
  {
    forall i, j :: 0 <= i < cap <= j < |all| ==> util(all[i]) >= util(all[j])
  }

  /** A small buffer yields the best `cap` goals, ranked, if and only if the first `cap`
      candidates by index are the most useful ones. */
  lemma SmallBufferExact(util: nat -> real, all: seq<nat>, cap: nat, full: seq<nat>, part: seq<nat>)
    requires cap <= |all| && forall d, e :: 0 <= d < e < |all| ==> all[d] < all[e]
    requires Ranked(util, full) && multiset(full) == multiset(all)
    requires Ranked(util, part) && multiset(part) == multiset(all[..cap])
    ensures |full| == |all| && (part == full[..cap] <==> BestFirst(util, all, cap))
  {
    MembersOf(full, all);
    MembersOf(part, all[..cap]);
    if BestFirst(util, all, cap) {
      KeptAreBest(util, all, cap, full, part);
    }
    if part == full[..cap] {
      forall i, j | 0 <= i < cap <= j < |all| ensures util(all[i]) >= util(all[j]) {
        assert all[..cap][i] in part && all[j] in full;
        var d :| 0 <= d < cap && part[d] == all[i];
        var e :| 0 <= e < |full| && full[e] == all[j];
        assert full[d] == part[d];
        LeftOut(all, cap, part, j);
      }
    }
  }

  lemma LeftOut(all: seq<nat>, cap: nat, part: seq<nat>, j: nat)
    requires cap <= j < |all| && forall d, e :: 0 <= d < e < |all| ==> all[d] < all[e]
    requires forall x :: x in part ==> x in all[..cap]
    ensures all[j] !in part
  {
    assert forall i :: 0 <= i < cap ==> all[i] < all[j];
  }

  lemma KeptAreBest(util: nat -> real, all: seq<nat>, cap: nat, full: seq<nat>, part: seq<nat>)
    requires cap <= |all| && forall d, e :: 0 <= d < e < |all| ==> all[d] < all[e]
    requires Ranked(util, full) && multiset(full) == multiset(all)
    requires Ranked(util, part) && multiset(part) == multiset(all[..cap]) && BestFirst(util, all, cap)
    ensures |part| == cap <= |full| && part == full[..cap]
  {
    hide InsertionSort.Sort;
    var tail := all[cap..];
    var rest := InsertionSort.Sort(tail, Worse(util));
    SortRanks(util, tail);
    InsertionSort.SortMultiset(tail, Worse(util));
    MembersOf(rest, tail);
    MembersOf(part, all[..cap]);
    assert all == all[..cap] + tail;
    var both := part + rest;
    assert multiset(both) == multiset(all);
    forall d, e | 0 <= d < e < |both|
      ensures util(both[d]) > util(both[e]) || (util(both[d]) == util(both[e]) && both[d] < both[e])
    {
      if d < |part| <= e {
        assert both[d] in all[..cap] && both[e] in tail;
        var i :| 0 <= i < cap && all[i] == both[d];
        var j :| 0 <= j < |tail| && tail[j] == both[e];
        assert all[cap + j] == both[e];
      }
    }
    RankingUnique(util, full, both);
  }

  /** Two goals and room for one: the ranking holds the worse goal, the selection the better. */
  method SmallBufferMisses() returns (out: seq<nat>, best: Option<nat>)
    ensures out == [0] && best == Some(1)
  {
    hide Candidates, Ranked, IsBest;
    var open, util := (g: nat) => true, TwoGoals();
    TwoCandidates(open);
    out := RankGoals(2, open, util, 0.0, 1);
    best := SelectGoal(2, open, util, 0.0);
    assert [0, 1][..1] == [0];
    OnlyOne(out, 0);
    BestIsUnique(2, open, util, 0.0, best.value, 1);
  }

  function TwoGoals(): nat -> real { (g: nat) => if g == 0 then 1.0 else 2.0 }

  lemma TwoCandidates(open: nat -> bool)
    requires forall g :: open(g)
    ensures Candidates(2, open, TwoGoals(), 0.0) == [0, 1] && IsBest(2, open, TwoGoals(), 0.0, 1)
  {
    var util := TwoGoals();
    assert Candidates(0, open, util, 0.0) == [];
    assert Candidates(1, open, util, 0.0) == [0];
  }

  lemma OnlyOne(a: seq<nat>, x: nat)
    requires multiset(a) == multiset([x])
    ensures a == [x]
  {
    MembersOf(a, [x]);
    assert a[0] in a;
  }
}
