/** The buffer a curve's points are loaded into. Its size in bytes is computed in 64 bits without
    a check, so a claimed count of 2^60 or more gets a buffer for fewer points than claimed. */
module PointBuffer {
  import opened Bytes
  import opened Cbor
  import opened PlanBlob

  /** sizeof(FleeceGoapPoint) */
  const POINT_BYTES: nat := 16

  /** The points that fit what malloc is asked for. */
  function Room(n: U64): nat { n * POINT_BYTES % TWO_64 / POINT_BYTES }

  lemma RoomIsModulo(n: U64)
    ensures Room(n) == n % 0x1000_0000_0000_0000
  {
    var m := 0x1000_0000_0000_0000;
    var q, r := n / m, n % m;
    assert n * POINT_BYTES == q * TWO_64 + r * POINT_BYTES;
    assert (q * TWO_64 + r * POINT_BYTES) % TWO_64 == r * POINT_BYTES;
  }

  /** How many buffer entries the loop writes to for `n` claimed points: every readable point, and
      one more when a point ends after its x. */
  function Stores(ieee: Ieee, b: seq<Byte>, pos: nat, n: nat): nat
    decreases n
  {
    if n == 0 then 0 else
      var h := ReadArity(b, pos, 2);
      if h.Fail? then 0 else
      var x := ReadReal(ieee, b, h.next);
      if x.Fail? then 0 else
      var y := ReadReal(ieee, b, x.next);
      if y.Fail? then 1 else 1 + Stores(ieee, b, y.next, n - 1)
  }

  /** Every store of the point list at `pos` is inside its buffer. */
  predicate InRange(ieee: Ieee, b: seq<Byte>, pos: nat)
  {
    var h := ReadHead(b, pos);
    h.Head? && h.major == 4 ==> Stores(ieee, b, h.next, h.value) <= Room(h.value)
  }

  lemma {:induction false} StoresBound(ieee: Ieee, b: seq<Byte>, pos: nat, n: nat)
    ensures Stores(ieee, b, pos, n) <= n
    decreases n
  {
    hide ReadArity, ReadReal;
    if n > 0 {
      var h := ReadArity(b, pos, 2);
      var x := if h.Ok? then ReadReal(ieee, b, h.next) else Fail;
      var y := if x.Ok? then ReadReal(ieee, b, x.next) else Fail;
      if y.Ok? { StoresBound(ieee, b, y.next, n - 1); }
    }
  }

  /** The loading loop. It stops where the code would store behind the buffer. */
  method LoadPoints(ieee: Ieee, b: seq<Byte>, pos: nat) returns (m: Many<Point>, inRange: bool)
    ensures inRange <==> InRange(ieee, b, pos)
    ensures inRange ==> m == ReadPoints(ieee, b, pos)
  {
    hide ReadHead, ReadMany, ReadReal, Stores, Room;
    var c := ReadHeadLoop(b, pos);
    if c.NoHead? || c.major != 4 { return Many([], pos, false), true; }
    var pts := new Point[Room(c.value)](_ => Point(0.0, 0.0));
    var j, next := 0, c.next;
    ghost var read := (p: nat) => ReadPoint(ieee, b, p);
    assert [] + ReadMany(read, next, c.value).items == ReadMany(read, next, c.value).items;
    while j < c.value
      invariant 0 <= j <= c.value && j <= pts.Length
      invariant j + Stores(ieee, b, next, c.value - j) == Stores(ieee, b, c.next, c.value)
      invariant var rest := ReadMany(read, next, c.value - j);
        ReadMany(read, c.next, c.value) == Many(pts[..j] + rest.items, rest.next, rest.ok)
    {
      ManyNext(read, pts[..j], next, c.value - j);
      StoresNext(ieee, b, next, c.value - j);
      var h := ReadArity(b, next, 2);
      if h.Fail? { return Many(pts[..j], next, false), true; }
      var x := ReadReal(ieee, b, h.next);
      if x.Fail? { return Many(pts[..j], next, false), true; }
      if j >= pts.Length { return Many(pts[..j], next, false), false; }
      ghost var before := pts[..j];
      pts[j] := Point(x.val, pts[j].y);
      assert pts[..j] == before;
      var y := ReadReal(ieee, b, x.next);
      if y.Fail? { return Many(pts[..j], next, false), true; }
      pts[j] := Point(pts[j].x, y.val);
      assert pts[..j + 1] == before + [Point(x.val, y.val)];
      j, next := j + 1, y.next;
    }
    ManyDone(read, next);
    StoresDone(ieee, b, next);
    m, inRange := Many(pts[..j], next, true), true;
  }

  lemma StoresNext(ieee: Ieee, b: seq<Byte>, pos: nat, n: nat)
    requires n > 0
    ensures var h := ReadArity(b, pos, 2);
            var x := if h.Ok? then ReadReal(ieee, b, h.next) else Fail;
            var y := if x.Ok? then ReadReal(ieee, b, x.next) else Fail;
            Stores(ieee, b, pos, n) ==
              if x.Fail? then 0 else if y.Fail? then 1 else 1 + Stores(ieee, b, y.next, n - 1)
  {
    hide ReadArity, ReadReal;
  }

  lemma StoresDone(ieee: Ieee, b: seq<Byte>, pos: nat)
    ensures Stores(ieee, b, pos, 0) == 0
  {}

  // ----- Whole blobs --------------------------------------------------------------------------------

  /** `good` holds at the point list of each of the `n` curves at `pos` that the loader reaches. */
  ghost predicate EachCurve(ieee: Ieee, b: seq<Byte>, pos: nat, n: nat, good: nat -> bool)
    decreases n
  {
    n > 0 ==>
      && (ReadCurve(ieee, b, pos).Ok? ==> good(ReadCurve(ieee, b, pos).next))
      && (ReadUtility(ieee, b, pos).Ok? ==> EachCurve(ieee, b, ReadUtility(ieee, b, pos).next, n - 1, good))
  }

  ghost predicate CurveTable(ieee: Ieee, b: seq<Byte>, pos: nat, good: nat -> bool)
  {
    var c := ReadCount(b, pos);
    c.Ok? ==> EachCurve(ieee, b, c.next, c.val, good)
  }

  /** The same for a blob: its curves are reached when everything before them is read. */
  ghost predicate Curves(ieee: Ieee, b: seq<Byte>, good: nat -> bool)
  {
    |b| >= 3 && b[..3] == BLOB_MAGIC && ReadArity(b, 3, 5).Ok? ==>
      var name := ReadName(b, ReadArity(b, 3, 5).next);
      name.Ok? ==>
        var actions := ReadActions(ieee, b, name.next);
        actions.ok ==>
          var goals := ReadGoals(ieee, b, actions.next);
          goals.ok ==> CurveTable(ieee, b, goals.next, good)
  }

  function Fits(ieee: Ieee, b: seq<Byte>): nat -> bool { (q: nat) => InRange(ieee, b, q) }

  /** Loading `b` stores no point outside its buffer. */
  ghost predicate BlobInRange(ieee: Ieee, b: seq<Byte>)
  {
    Curves(ieee, b, Fits(ieee, b))
  }

  /** The points claimed at `q`, 0 if there is no count. */
  function Claimed(b: seq<Byte>, q: nat): U64
  {
    var h := ReadHead(b, q);
    if h.Head? && h.major == 4 then h.value else 0
  }

  /** A list is in range if and only if what is readable of it is at most its claimed count modulo
      2^60; so every count below 2^60 is. */
  lemma InRangeIff(ieee: Ieee, b: seq<Byte>, q: nat)
    ensures InRange(ieee, b, q) <==>
            (ReadCount(b, q).Ok? ==>
               Stores(ieee, b, ReadCount(b, q).next, Claimed(b, q)) <= Claimed(b, q) % 0x1000_0000_0000_0000)
    ensures Claimed(b, q) < 0x1000_0000_0000_0000 ==> InRange(ieee, b, q)
  {
    hide Stores, Room, ReadHead;
    RoomIsModulo(Claimed(b, q));
    if ReadCount(b, q).Ok? { StoresBound(ieee, b, ReadCount(b, q).next, Claimed(b, q)); }
  }

  lemma {:induction false} EachCurveWeaker(ieee: Ieee, b: seq<Byte>, pos: nat, n: nat,
                                           good: nat -> bool, fine: nat -> bool)
    requires EachCurve(ieee, b, pos, n, good) && forall q :: good(q) ==> fine(q)
    ensures EachCurve(ieee, b, pos, n, fine)
    decreases n
  {
    hide ReadCurve, ReadUtility;
    if n > 0 && ReadUtility(ieee, b, pos).Ok? {
      EachCurveWeaker(ieee, b, ReadUtility(ieee, b, pos).next, n - 1, good, fine);
    }
  }

  /** A blob whose curves all claim fewer than 2^60 points is loaded in range. */
  lemma SmallCountsInRange(ieee: Ieee, b: seq<Byte>)
    requires Curves(ieee, b, (q: nat) => Claimed(b, q) < 0x1000_0000_0000_0000)
    ensures BlobInRange(ieee, b)
  {
    hide ReadArity, ReadName, ReadActions, ReadGoals, ReadCount, EachCurve, InRange, Claimed;
    var good, fine := (q: nat) => Claimed(b, q) < 0x1000_0000_0000_0000, Fits(ieee, b);
    forall q: nat | good(q) ensures fine(q) { InRangeIff(ieee, b, q); }
    forall pos: nat, n: nat | EachCurve(ieee, b, pos, n, good) ensures EachCurve(ieee, b, pos, n, fine) {
      EachCurveWeaker(ieee, b, pos, n, good, fine);
    }
  }

  /** A curve that is read to its end is in range, since a blob has fewer than 2^32 bytes. */
  lemma ReadCurvesInRange(ieee: Ieee, b: seq<Byte>, pos: nat)
    requires ieee.Valid() && |b| < TWO_32 && ReadUtility(ieee, b, pos).Ok?
    ensures InRange(ieee, b, ReadCurve(ieee, b, pos).next)
  {
    hide ReadCurve, ReadPoint, InRange, Ieee.Valid;
    var q := ReadCurve(ieee, b, pos).next;
    PointsYield(ieee, b, q);
    var c := ReadCount(b, q);
    AllRead((p: nat) => ReadPoint(ieee, b, p), c.next, c.val);
    InRangeIff(ieee, b, q);
  }

  lemma {:induction false} AllRead<T>(read: nat -> Parse<T>, pos: nat, n: nat)
    requires ReadMany(read, pos, n).ok
    ensures |ReadMany(read, pos, n).items| == n
    decreases n
  {
    if n > 0 { AllRead(read, read(pos).next, n - 1); }
  }

  lemma {:induction false} ReadAllInRange(ieee: Ieee, b: seq<Byte>, pos: nat, n: nat)
    requires ieee.Valid() && |b| < TWO_32 && ReadMany((p: nat) => ReadUtility(ieee, b, p), pos, n).ok
    ensures EachCurve(ieee, b, pos, n, Fits(ieee, b))
    decreases n
  {
    hide ReadCurve, ReadUtilityDef, InRange, Ieee.Valid, UtilityFits, PointsSorted;
    if n > 0 {
      ReadCurvesInRange(ieee, b, pos);
      ReadAllInRange(ieee, b, ReadUtility(ieee, b, pos).next, n - 1);
    }
  }

  /** Every blob that loads successfully is loaded in range. */
  lemma GoodBlobsInRange(ieee: Ieee, b: seq<Byte>)
    requires ieee.Valid() && |b| < TWO_32 && ReadBlob(ieee, b).Some? && ReadBlob(ieee, b).value.ok
    ensures BlobInRange(ieee, b)
  {
    hide ReadArity, ReadName, ReadActions, ReadGoals, ReadCount, ReadMissions, EachCurve, InRange, ReadMany,
         Ieee.Valid, Fits;
    var name := ReadName(b, ReadArity(b, 3, 5).next);
    var goals := ReadGoals(ieee, b, ReadActions(ieee, b, name.next).next);
    var c := ReadCount(b, goals.next);
    ReadAllInRange(ieee, b, c.next, c.val);
  }

  // ----- A blob that is not in range ----------------------------------------------------------------

  const CLAIM: U64 := 0x1000_0000_0000_0001

  /** One unnamed curve that claims 2^60 + 1 points and holds two. */
  function Overfull(): seq<Byte>
  {
    BLOB_MAGIC + [0x85, 0x60, 0x80, 0x80, 0x81, 0x87, 0x60, 0x60, 0x60, 0, 0] + EncArray(CLAIM)
    + [0x82, 0, 0, 0x82, 0, 0]
  }

  lemma OneByte(b: seq<Byte>, pos: nat)
    requires pos < |b| && b[pos] % 32 < 24
    ensures ReadHead(b, pos) == Head(b[pos] / 32, b[pos] % 32, pos + 1)
  {}

  lemma EmptyText(b: seq<Byte>, pos: nat)
    requires pos < |b| && b[pos] == 0x60
    ensures ReadText(b, pos) == Ok([], pos + 1) && ReadName(b, pos) == Ok([], pos + 1)
  {
    hide ReadHead;
    OneByte(b, pos);
  }

  lemma Zero(ieee: Ieee, b: seq<Byte>, pos: nat)
    requires pos < |b| && b[pos] == 0
    ensures ReadReal(ieee, b, pos) == Ok(ieee.ofUint(0), pos + 1)
  {
    hide ReadHead;
    OneByte(b, pos);
  }

  lemma Small(b: seq<Byte>, pos: nat)
    requires pos < |b| && 0x80 <= b[pos] < 0x98
    ensures ReadCount(b, pos) == Ok(b[pos] - 0x80, pos + 1)
  {
    hide ReadHead;
    OneByte(b, pos);
  }

  /** Two points are readable, the buffer holds one. */
  lemma PointsOverrun(ieee: Ieee)
    ensures var b := Overfull();
            && |b| == 29 && Claimed(b, 14) == CLAIM && Room(CLAIM) == 1
            && Stores(ieee, b, 23, CLAIM) == 2 && !InRange(ieee, b, 14)
  {
    hide ReadHead, ReadReal, EncHead;
    var b := Overfull();
    assert At(b, 14, EncArray(CLAIM));
    HeadRoundTrip(b, 14, 4, CLAIM);
    RoomIsModulo(CLAIM);
    assert b[23..] == [0x82, 0, 0, 0x82, 0, 0];
    assert b[23] == 0x82 && b[24] == 0 && b[25] == 0 && b[26] == 0x82 && b[27] == 0 && b[28] == 0;
    Small(b, 23);
    Zero(ieee, b, 24);
    Zero(ieee, b, 25);
    Small(b, 26);
    Zero(ieee, b, 27);
    Zero(ieee, b, 28);
    assert ReadHead(b, 29) == NoHead by { Behind(b, 29); }
    hide Stores;
    StoresNext(ieee, b, 23, CLAIM);
    StoresNext(ieee, b, 26, CLAIM - 1);
    StoresNext(ieee, b, 29, CLAIM - 2);
  }

  lemma Behind(b: seq<Byte>, pos: nat)
    requires pos >= |b|
    ensures ReadHead(b, pos) == NoHead
  {}

  /** The loader reaches that curve: not every blob is loaded in range. */
  lemma NotAllInRange(ieee: Ieee)
    ensures !BlobInRange(ieee, Overfull())
  {
    hide ReadHead, ReadReal, ReadText, ReadName, ReadCount, EncArray, InRange, Stores;
    PointsOverrun(ieee);
    var b := Overfull();
    assert b[..14] == BLOB_MAGIC + [0x85, 0x60, 0x80, 0x80, 0x81, 0x87, 0x60, 0x60, 0x60, 0, 0];
    assert b[..3] == b[..14][..3] == BLOB_MAGIC;
    assert b[3] == b[..14][3] && b[4] == b[..14][4] && b[5] == b[..14][5] && b[6] == b[..14][6] && b[7] == b[..14][7];
    assert b[8] == b[..14][8] && b[9] == b[..14][9] && b[10] == b[..14][10] && b[11] == b[..14][11];
    assert b[12] == b[..14][12] && b[13] == b[..14][13];
    Small(b, 3);
    EmptyText(b, 4);
    Small(b, 5);
    Small(b, 6);
    Small(b, 7);
    Small(b, 8);
    EmptyText(b, 9);
    EmptyText(b, 10);
    EmptyText(b, 11);
    Zero(ieee, b, 12);
    Zero(ieee, b, 13);
    assert ReadActions(ieee, b, 5) == Many([], 6, true);
    assert ReadGoals(ieee, b, 6) == Many([], 7, true);
    assert ReadCurve(ieee, b, 8).Ok? && ReadCurve(ieee, b, 8).next == 14;
    hide ReadCurve, ReadActions, ReadGoals;
    assert !EachCurve(ieee, b, 8, 1, Fits(ieee, b));
  }
}
