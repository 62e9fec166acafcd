/** The insertion sort the C code writes three times: over eligible slots before packing, over
    ranked goals, and over the points of a utility curve. `above(y, x)` is the loop guard:
    `y` has to move up to make room for `x`. */
module InsertionSort {

  function Insert<T>(ys: seq<T>, x: T, above: (T, T) -> bool): (r: seq<T>)
    ensures |r| == |ys| + 1
  {
    if ys == [] || !above(ys[|ys| - 1], x) then ys + [x]
    else Insert(ys[..|ys| - 1], x, above) + [ys[|ys| - 1]]
  }

  function Sort<T>(xs: seq<T>, above: (T, T) -> bool): (r: seq<T>)
    ensures |r| == |xs|
  {
    if xs == [] then [] else Insert(Sort(xs[..|xs| - 1], above), xs[|xs| - 1], above)
  }

  /** The inner loop: elements above `a[i]` move up one place and `a[i]` drops into the gap. */
  method InsertArray<T>(a: array<T>, i: nat, above: (T, T) -> bool)
    requires i < a.Length
    modifies a
    ensures a[..i + 1] == Insert(old(a[..i]), old(a[i]), above)
    ensures a[i + 1..] == old(a[i + 1..])
  {
    hide Insert;
    ghost var ys, all := a[..i], a[..];
    var x := a[i];
    var b := i;
    InsertStart(ys, x, above);
    while b > 0 && above(a[b - 1], x)
      invariant 0 <= b <= i
      invariant forall k :: 0 <= k < b ==> a[k] == ys[k]
      invariant forall k :: b < k <= i ==> a[k] == ys[k - 1]
      invariant forall k :: i < k < a.Length ==> a[k] == all[k]
      invariant Insert(ys, x, above) == Insert(ys[..b], x, above) + ys[b..]
    {
      InsertDown(ys, x, above, b);
      a[b] := a[b - 1];
      b := b - 1;
    }
    InsertHere(ys, x, above, b);
    a[b] := x;
    Shifted(a[..i + 1], ys, b, x);
    assert a[i + 1..] == all[i + 1..];
  }

  lemma InsertStart<T>(ys: seq<T>, x: T, above: (T, T) -> bool)
    ensures Insert(ys, x, above) == Insert(ys[..|ys|], x, above) + ys[|ys|..]
  {
    assert ys[..|ys|] == ys;
  }

  lemma InsertDown<T>(ys: seq<T>, x: T, above: (T, T) -> bool, b: nat)
    requires 0 < b <= |ys| && above(ys[b - 1], x) && Insert(ys, x, above) == Insert(ys[..b], x, above) + ys[b..]
    ensures Insert(ys, x, above) == Insert(ys[..b - 1], x, above) + ys[b - 1..]
  {
    hide Insert;
    var z, c := ys[..b], Insert(ys[..b - 1], x, above);
    Prefix(ys, b);
    InsertLast(z, x, above);
    Move(c, ys[b - 1], ys[b..]);
  }

  lemma InsertLast<T>(z: seq<T>, x: T, above: (T, T) -> bool)
    requires z != [] && above(z[|z| - 1], x)
    ensures Insert(z, x, above) == Insert(z[..|z| - 1], x, above) + [z[|z| - 1]]
  {}

  lemma Prefix<T>(ys: seq<T>, b: nat)
    requires 0 < b <= |ys|
    ensures ys[..b][..b - 1] == ys[..b - 1] && ys[..b][b - 1] == ys[b - 1] && ys[b - 1..] == [ys[b - 1]] + ys[b..]
  {}

  lemma Move<T>(c: seq<T>, y: T, rest: seq<T>)
    ensures c + [y] + rest == c + ([y] + rest)
  {}

  lemma InsertHere<T>(ys: seq<T>, x: T, above: (T, T) -> bool, b: nat)
    requires b <= |ys| && (b == 0 || !above(ys[b - 1], x))
    requires Insert(ys, x, above) == Insert(ys[..b], x, above) + ys[b..]
    ensures Insert(ys, x, above) == ys[..b] + [x] + ys[b..]
  {
    assert b > 0 ==> ys[..b][b - 1] == ys[b - 1];
  }

  lemma Shifted<T>(zs: seq<T>, ys: seq<T>, b: nat, x: T)
    requires b <= |ys| && |zs| == |ys| + 1 && zs[b] == x
    requires (forall k :: 0 <= k < b ==> zs[k] == ys[k]) && forall k :: b < k < |zs| ==> zs[k] == ys[k - 1]
    ensures zs == ys[..b] + [x] + ys[b..]
  {}

  /** The in-place sort of the first `n` elements. */
  method SortArray<T>(a: array<T>, n: nat, above: (T, T) -> bool)
    requires n <= a.Length
    modifies a
    ensures a[..n] == Sort(old(a[..n]), above)
    ensures a[n..] == old(a[n..])
  {
    ghost var xs := a[..];
    for i := 0 to n
      invariant a[..i] == Sort(xs[..i], above)
      invariant a[i..] == xs[i..]
    {
      assert a[i] == a[i..][0] == xs[i..][0];
      assert a[i + 1..] == a[i..][1..] == xs[i + 1..];
      assert xs[..i + 1][..i] == xs[..i];
      InsertArray(a, i, above);
    }
  }

  // ----- What the sort guarantees ------------------------------------------------------------

  lemma {:induction false} InsertMultiset<T>(ys: seq<T>, x: T, above: (T, T) -> bool)
    ensures multiset(Insert(ys, x, above)) == multiset(ys) + multiset{x}
  {
    if ys == [] || !above(ys[|ys| - 1], x) {
    } else {
      InsertMultiset(ys[..|ys| - 1], x, above);
      assert ys == ys[..|ys| - 1] + [ys[|ys| - 1]];
    }
  }

  lemma {:induction false} SortMultiset<T>(xs: seq<T>, above: (T, T) -> bool)
    ensures multiset(Sort(xs, above)) == multiset(xs)
  {
    if xs != [] {
      SortMultiset(xs[..|xs| - 1], above);
      InsertMultiset(Sort(xs[..|xs| - 1], above), xs[|xs| - 1], above);
      assert xs == xs[..|xs| - 1] + [xs[|xs| - 1]];
    }
  }

  lemma SortMembers<T>(xs: seq<T>, above: (T, T) -> bool)
    ensures forall x :: x in Sort(xs, above) <==> x in xs
  {
    SortMultiset(xs, above);
    assert forall x :: x in xs <==> x in multiset(xs);
    assert forall x :: x in Sort(xs, above) <==> x in multiset(Sort(xs, above));
  }

  /** A strict weak order: what every comparison of the three sorts is. */
  ghost predicate WeakOrder<T(!new)>(above: (T, T) -> bool)
  {
    && (forall x, y :: above(x, y) ==> !above(y, x))
    && (forall x, y, z :: !above(x, y) && !above(y, z) ==> !above(x, z))
  }

  ghost predicate Sorted<T>(xs: seq<T>, above: (T, T) -> bool)
  {
    forall d, e :: 0 <= d < e < |xs| ==> !above(xs[d], xs[e])
  }

  /** Elements that compare equal stand in the order `first`. */
  ghost predicate Stable<T>(xs: seq<T>, above: (T, T) -> bool, first: (T, T) -> bool)
  {
    forall d, e :: 0 <= d < e < |xs| && !above(xs[e], xs[d]) ==> first(xs[d], xs[e])
  }

  lemma {:induction false} InsertSorted<T(!new)>(ys: seq<T>, x: T, above: (T, T) -> bool, first: (T, T) -> bool)
    requires WeakOrder(above) && Sorted(ys, above) && Stable(ys, above, first)
    requires forall y :: y in ys ==> first(y, x)
    ensures Sorted(Insert(ys, x, above), above) && Stable(Insert(ys, x, above), above, first)
  {
    var r := Insert(ys, x, above);
    var n := |ys|;
    if n == 0 || !above(ys[n - 1], x) {
      forall d | 0 <= d < n ensures !above(ys[d], x) && first(ys[d], x) {
        assert ys[d] in ys;
        assert d == n - 1 || !above(ys[d], ys[n - 1]);
      }
    } else {
      InsertSorted(ys[..n - 1], x, above, first);
      var q := Insert(ys[..n - 1], x, above);
      InsertMultiset(ys[..n - 1], x, above);
      forall d | 0 <= d < n ensures !above(q[d], ys[n - 1]) && (!above(ys[n - 1], q[d]) ==> first(q[d], ys[n - 1])) {
        assert q[d] in multiset(q);
        if q[d] != x {
          assert q[d] in multiset(ys[..n - 1]);
          var c :| 0 <= c < n - 1 && ys[..n - 1][c] == q[d];
          assert ys[c] == q[d];
        }
      }
      assert r == q + [ys[n - 1]];
    }
  }

  /** The result is sorted, and equal elements keep the order they arrived in. */
  lemma {:induction false} SortIsStable<T(!new)>(xs: seq<T>, above: (T, T) -> bool, first: (T, T) -> bool)
    requires WeakOrder(above)
    requires forall d, e :: 0 <= d < e < |xs| ==> first(xs[d], xs[e])
    ensures Sorted(Sort(xs, above), above) && Stable(Sort(xs, above), above, first)
  {
    if xs != [] {
      var n := |xs| - 1;
      var ys := Sort(xs[..n], above);
      SortIsStable(xs[..n], above, first);
      SortMembers(xs[..n], above);
      InsertSorted(ys, xs[n], above, first);
    }
  }

  /** Sorting what is sorted changes nothing. */
  lemma {:induction false} SortIdentity<T>(xs: seq<T>, above: (T, T) -> bool)
    requires Sorted(xs, above)
    ensures Sort(xs, above) == xs
  {
    if xs != [] {
      var n := |xs| - 1;
      SortIdentity(xs[..n], above);
      assert n == 0 || !above(xs[n - 1], xs[n]);
      assert xs == xs[..n] + [xs[n]];
    }
  }
}
