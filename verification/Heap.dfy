/** The search frontier: a binary min-heap over (f, node index) with hole-based sifting
    (src/planner/fleece_planner.c). The entry array grows by reallocation, so it is a
    sequence here. */
module Heap {

  datatype Entry = Entry(f: real, idx: nat)

  function Parent(i: nat): nat
    requires i > 0
  {
    (i - 1) / 2
  }

  ghost predicate HeapOrder(s: seq<Entry>)
  {
    forall i :: 0 < i < |s| ==> s[Parent(i)].f <= s[i].f
  }

  lemma {:induction false} RootIsLeast(s: seq<Entry>, i: nat)
    requires HeapOrder(s) && i < |s|
    ensures s[0].f <= s[i].f
  {
    if i > 0 {
      RootIsLeast(s, Parent(i));
    }
  }

  /** Moving `s[p]` into the hole `i` and the hole to `p` keeps the multiset once the hole is
      filled. */
  lemma MoveHole(s: seq<Entry>, i: nat, p: nat, e: Entry)
    requires i < |s| && p < |s| && i != p
    ensures multiset(s[i := s[p]][p := e]) == multiset(s[i := e])
  {
    assert s[i := s[p]][p := e] == s[i := e][i := s[p]][p := e];
    Swap(s[i := e], i, p);
  }

  lemma Swap(s: seq<Entry>, i: nat, p: nat)
    requires i < |s| && p < |s|
    ensures multiset(s[i := s[p]][p := s[i]]) == multiset(s)
  {}

  /** Heap order everywhere except at the hole `i`, with room for a value `f` below it while
      sifting up. */
  ghost predicate UpHole(s: seq<Entry>, i: nat, f: real)
  {
    && i < |s|
    && (forall j :: 0 < j < |s| && j != i && Parent(j) != i ==> s[Parent(j)].f <= s[j].f)
    && (forall j :: 0 < j < |s| && Parent(j) == i ==> f <= s[j].f)
    && (i > 0 ==> forall j :: 0 < j < |s| && Parent(j) == i ==> s[Parent(i)].f <= s[j].f)
  }

  lemma UpMove(s: seq<Entry>, i: nat, f: real)
    requires UpHole(s, i, f) && i > 0 && s[Parent(i)].f > f
    ensures UpHole(s[i := s[Parent(i)]], Parent(i), f)
  {
    var p := Parent(i);
    var s' := s[i := s[p]];
    forall j | 0 < j < |s'| && j != p && Parent(j) != p ensures s'[Parent(j)].f <= s'[j].f {
      if Parent(j) == i {
        assert s[p].f <= s[j].f;
      }
    }
    forall j | 0 < j < |s'| && Parent(j) == p ensures f <= s'[j].f && (p > 0 ==> s'[Parent(p)].f <= s'[j].f) {
      if j != i {
        assert s[Parent(j)].f <= s[j].f;
      }
    }
  }

  lemma UpFill(s: seq<Entry>, i: nat, e: Entry)
    requires UpHole(s, i, e.f) && (i > 0 ==> s[Parent(i)].f <= e.f)
    ensures HeapOrder(s[i := e])
  {}

  /** The same while sifting down: everything above the hole is at most `f`. */
  ghost predicate DownHole(s: seq<Entry>, i: nat, f: real)
  {
    && i < |s|
    && (forall j :: 0 < j < |s| && j != i && Parent(j) != i ==> s[Parent(j)].f <= s[j].f)
    && (i > 0 ==> s[Parent(i)].f <= f)
    && (i > 0 ==> forall j :: 0 < j < |s| && Parent(j) == i ==> s[Parent(i)].f <= s[j].f)
  }

  /** `m` is a least child of `i`. */
  ghost predicate LeastChild(s: seq<Entry>, i: nat, m: nat)
  {
    && 0 < m < |s| && Parent(m) == i
    && forall j :: 0 < j < |s| && Parent(j) == i ==> s[m].f <= s[j].f
  }

  lemma DownMove(s: seq<Entry>, i: nat, m: nat, f: real)
    requires DownHole(s, i, f) && LeastChild(s, i, m) && s[m].f < f
    ensures DownHole(s[i := s[m]], m, f)
  {
    var s' := s[i := s[m]];
    forall j | 0 < j < |s'| && j != m && Parent(j) != m ensures s'[Parent(j)].f <= s'[j].f {
      if j == i {
        assert s[Parent(i)].f <= s[m].f;
      }
    }
    forall j | 0 < j < |s'| && Parent(j) == m ensures s'[Parent(m)].f <= s'[j].f {
      assert s[Parent(j)].f <= s[j].f;
    }
  }

  lemma DownFill(s: seq<Entry>, i: nat, e: Entry)
    requires DownHole(s, i, e.f) && forall j :: 0 < j < |s| && Parent(j) == i ==> e.f <= s[j].f
    ensures HeapOrder(s[i := e])
  {}

  /** The children of `i` are 2i + 1 and 2i + 2. */
  lemma Children(i: nat, n: nat)
    ensures forall j :: 0 < j < n && Parent(j) == i ==> j == 2 * i + 1 || j == 2 * i + 2
    ensures Parent(2 * i + 1) == i && Parent(2 * i + 2) == i
  {}

  lemma RootHole(s: seq<Entry>)
    requires |s| > 1 && HeapOrder(s)
    ensures DownHole(s[..|s| - 1], 0, s[|s| - 1].f)
  {
    var t := s[..|s| - 1];
    forall j | 0 < j < |t| ensures t[Parent(j)].f <= t[j].f {
      assert s[Parent(j)].f <= s[j].f;
    }
  }

  lemma Ends(x: Entry, mid: seq<Entry>, y: Entry)
    ensures multiset([x] + mid + [y]) - multiset{x} == multiset([y] + mid)
  {
    assert multiset([x] + mid + [y]) == multiset{x} + multiset(mid) + multiset{y};
    assert multiset([y] + mid) == multiset{y} + multiset(mid);
  }

  lemma DropRoot(s: seq<Entry>)
    requires s != []
    ensures var n := |s| - 1;
            multiset(if n == 0 then [] else s[..n][0 := s[n]]) == multiset(s) - multiset{s[0]}
  {
    var n := |s| - 1;
    if n == 0 {
      assert s == [s[0]];
    } else {
      assert s == [s[0]] + s[1..n] + [s[n]];
      assert s[..n][0 := s[n]] == [s[n]] + s[1..n];
      Ends(s[0], s[1..n], s[n]);
    }
  }

  class MinHeap {
    var items: seq<Entry>

    ghost predicate Valid()
      reads this
    {
      HeapOrder(items)
    }

    constructor ()
      ensures Valid() && items == []
    {
      items := [];
    }

    /** heap_push */
    method Push(idx: nat, f: real)
      requires Valid()
      modifies this
      ensures Valid() && multiset(items) == multiset(old(items)) + multiset{Entry(f, idx)}
    {
      var e := Entry(f, idx);
      ghost var goal := multiset(items) + multiset{e};
      var i: nat := |items|;
      items := items + [e];
      assert UpHole(items, i, f);
      hide UpHole;
      while i > 0
        invariant i < |items| && UpHole(items, i, f) && multiset(items[i := e]) == goal
      {
        var parent := (i - 1) / 2;
        if items[parent].f <= f { break; }
        MoveHole(items, i, parent, e);
        UpMove(items, i, f);
        items := items[i := items[parent]];
        i := parent;
      }
      UpFill(items, i, e);
      items := items[i := e];
    }

    /** The loop of heap_pop: fills the hole at the root with `last`. */
    method SiftDown(last: Entry)
      requires items != [] && DownHole(items, 0, last.f)
      modifies this
      ensures Valid() && multiset(items) == multiset(old(items)[0 := last])
    {
      hide DownHole, HeapOrder, Parent;
      ghost var goal := multiset(items[0 := last]);
      var n := |items|;
      var i: nat := 0;
      while 2 * i + 1 < n
        invariant i < n == |items| && DownHole(items, i, last.f) && multiset(items[i := last]) == goal
        decreases n - i
      {
        var l := i * 2 + 1;
        var r := l + 1;
        var m := if r < n && items[r].f < items[l].f then r else l;
        Children(i, n);
        assert LeastChild(items, i, m);
        if items[m].f >= last.f { break; }
        MoveHole(items, i, m, last);
        DownMove(items, i, m, last.f);
        items := items[i := items[m]];
        i := m;
      }
      Children(i, n);
      DownFill(items, i, last);
      items := items[i := last];
    }

    /** heap_pop: takes out a least entry. */
    method Pop() returns (found: bool, least: Entry)
      requires Valid()
      modifies this
      ensures Valid() && found == (old(items) != [])
      ensures !found ==> items == old(items)
      ensures found ==> least in old(items) && multiset(items) == multiset(old(items)) - multiset{least}
      ensures found ==> forall e :: e in old(items) ==> least.f <= e.f
    {
      if |items| == 0 { return false, Entry(0.0, 0); }
      least := items[0];
      forall e | e in items ensures least.f <= e.f {
        var i :| 0 <= i < |items| && items[i] == e;
        RootIsLeast(items, i);
      }
      var n := |items| - 1;
      var last := items[n];
      DropRoot(items);
      if n > 0 { RootHole(items); }
      hide DownHole;
      items := items[..n];
      if n > 0 { SiftDown(last); }
      found := true;
    }
  }
}
