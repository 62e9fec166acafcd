/** The planner object's tables: the add functions that fill them, and the two loops that turn
    them into a plan blob and back (src/planner/fleece_planner.c). */
module PlanTables {
  import opened Bytes
  import opened Cbor
  import opened PlanBlob
  import InsertionSort
  import PB = PointBuffer

  // ----- Measured sizes -------------------------------------------------------------------------

  function TextSize(t: Text): nat { if |t| < TWO_64 then StringSize(|t|) else 0 }

  function CountSize(n: nat): nat { if n < TWO_64 then UintSize(n) else 0 }

  function SizeEach<T>(xs: seq<T>, size: T -> nat): nat
  {
    if xs == [] then 0 else SizeEach(xs[..|xs| - 1], size) + size(xs[|xs| - 1])
  }

  function ListSize<T>(xs: seq<T>, size: T -> nat): nat { CountSize(|xs|) + SizeEach(xs, size) }

  function ActionSize(a: Action): nat
  {
    UintSize(8) + TextSize(a.id) + TextSize(a.name) + TextSize(a.cost) + TextSize(a.dest) + NumSize(a.dur)
        + TextSize(a.exec)
    + ListSize(a.pre, TextSize) + ListSize(a.eff, TextSize)
  }

  function GoalSize(g: Goal): nat
  {
    UintSize(5) + TextSize(g.id) + TextSize(g.name) + TextSize(g.expr) + NumSize(g.priority) + TextSize(g.curve)
  }

  function PointSize(p: Point): nat { UintSize(2) + NumSize(p.x) + NumSize(p.y) }

  function UtilitySize(u: Utility): nat
  {
    UintSize(7) + TextSize(u.id) + TextSize(u.name) + TextSize(u.dim) + NumSize(u.xMin) + NumSize(u.xMax)
    + ListSize(u.points, PointSize)
  }

  function MissionSize(m: Mission): nat
  {
    UintSize(4) + TextSize(m.id) + TextSize(m.name) + ListSize(m.goals, TextSize) + TextSize(m.note)
  }

  function BodySize(g: Goap): nat
  {
    UintSize(5) + TextSize(g.name) + ListSize(g.actions, ActionSize) + ListSize(g.goals, GoalSize)
    + ListSize(g.utilities, UtilitySize) + ListSize(g.missions, MissionSize)
  }

  lemma {:induction false} ListSizeExact<T(!new)>(xs: seq<T>, size: T -> nat, enc: T -> seq<Byte>)
    requires forall x :: size(x) == |enc(x)|
    ensures ListSize(xs, size) == |EncList(xs, enc)|
  {
    EachSizeExact(xs, size, enc);
  }

  lemma {:induction false} EachSizeExact<T(!new)>(xs: seq<T>, size: T -> nat, enc: T -> seq<Byte>)
    requires forall x :: size(x) == |enc(x)|
    ensures SizeEach(xs, size) == |EncEach(xs, enc)|
  {
    if xs != [] { EachSizeExact(xs[..|xs| - 1], size, enc); }
  }

  lemma ActionSizeExact(ieee: Ieee, a: Action)
    ensures ActionSize(a) == |EncAction(ieee, a)|
  {
    ListSizeExact(a.pre, TextSize, EncStr);
    ListSizeExact(a.eff, TextSize, EncStr);
  }

  lemma UtilitySizeExact(ieee: Ieee, u: Utility)
    ensures UtilitySize(u) == |EncUtility(ieee, u)|
  {
    ListSizeExact(u.points, PointSize, (p: Point) => EncPoint(ieee, p));
  }

  lemma MissionSizeExact(m: Mission)
    ensures MissionSize(m) == |EncMission(m)|
  {
    ListSizeExact(m.goals, TextSize, EncStr);
  }

  /** The measuring pass predicts the written length exactly. */
  lemma BodySizeExact(ieee: Ieee, g: Goap)
    ensures BodySize(g) == |EncBody(ieee, g)|
  {
    hide ActionSize, EncAction, GoalSize, EncGoal, UtilitySize, EncUtility, MissionSize, EncMission, ListSize,
         EncList;
    forall a: Action ensures ActionSize(a) == |EncAction(ieee, a)| { ActionSizeExact(ieee, a); }
    forall x: Goal ensures GoalSize(x) == |EncGoal(ieee, x)| { GoalSizeExact(ieee, x); }
    forall u: Utility ensures UtilitySize(u) == |EncUtility(ieee, u)| { UtilitySizeExact(ieee, u); }
    forall m: Mission ensures MissionSize(m) == |EncMission(m)| { MissionSizeExact(m); }
    ListSizeExact(g.actions, ActionSize, (x: Action) => EncAction(ieee, x));
    ListSizeExact(g.goals, GoalSize, (x: Goal) => EncGoal(ieee, x));
    ListSizeExact(g.utilities, UtilitySize, (x: Utility) => EncUtility(ieee, x));
    ListSizeExact(g.missions, MissionSize, EncMission);
  }

  lemma GoalSizeExact(ieee: Ieee, g: Goal)
    ensures GoalSize(g) == |EncGoal(ieee, g)|
  {
  }

  /** One measuring loop of serialize_body_size. */
  method MeasureList<T>(xs: seq<T>, size: T -> nat) returns (n: nat)
    ensures n == ListSize(xs, size)
  {
    n := CountSize(|xs|);
    for i := 0 to |xs|
      invariant n == CountSize(|xs|) + SizeEach(xs[..i], size)
    {
      assert xs[..i + 1][..i] == xs[..i];
      n := n + size(xs[i]);
    }
    assert xs[..|xs|] == xs;
  }

  // ----- Writers ----------------------------------------------------------------------------------

  /** The first `i` entries of a counted array. */
  function EncFirst<T>(xs: seq<T>, enc: T -> seq<Byte>, i: nat): seq<Byte>
    requires i <= |xs|
  {
    EncCount(|xs|) + EncEach(xs[..i], enc)
  }

  lemma FirstEnds<T>(xs: seq<T>, enc: T -> seq<Byte>)
    ensures EncFirst(xs, enc, 0) == EncCount(|xs|) && EncFirst(xs, enc, |xs|) == EncList(xs, enc)
    ensures |EncCount(|xs|)| <= |EncList(xs, enc)|
  {
    assert xs[..|xs|] == xs;
  }

  /** Writing one more entry extends the array and stays inside the finished one. */
  lemma FirstNext<T>(p: seq<Byte>, xs: seq<T>, enc: T -> seq<Byte>, i: nat)
    requires i < |xs|
    ensures p + EncFirst(xs, enc, i) + enc(xs[i]) == p + EncFirst(xs, enc, i + 1)
    ensures |EncFirst(xs, enc, i + 1)| == |EncFirst(xs, enc, i)| + |enc(xs[i])| <= |EncList(xs, enc)|
  {
    hide EncCount;
    assert xs[..i + 1][..i] == xs[..i];
    EachWithin(xs, enc, i + 1);
  }

  lemma {:induction false} EachWithin<T>(xs: seq<T>, enc: T -> seq<Byte>, i: nat)
    requires i <= |xs|
    ensures |EncEach(xs[..i], enc)| <= |EncEach(xs, enc)|
    decreases |xs|
  {
    if i < |xs| {
      EachWithin(xs[..|xs| - 1], enc, i);
      assert xs[..|xs| - 1][..i] == xs[..i];
    } else {
      assert xs[..i] == xs;
    }
  }

  method WriteText(buf: array<Byte>, pos: nat, t: Text) returns (next: nat)
    requires TextOk(t) && pos + |EncStr(t)| <= buf.Length
    modifies buf
    ensures next == pos + |EncStr(t)|
    ensures buf[..next] == old(buf[..pos]) + EncStr(t)
  {
    next := WriteString(buf, pos, 3, t);
  }

  method WriteCount(buf: array<Byte>, pos: nat, n: nat) returns (next: nat)
    requires n < TWO_32 && pos + |EncCount(n)| <= buf.Length
    modifies buf
    ensures next == pos + |EncCount(n)|
    ensures buf[..next] == old(buf[..pos]) + EncCount(n)
  {
    next := WriteHead(buf, pos, 4, n);
  }

  method WriteTexts(buf: array<Byte>, pos: nat, xs: seq<Text>) returns (next: nat)
    requires TextsOk(xs)
    requires pos + |EncList(xs, EncStr)| <= buf.Length
    modifies buf
    ensures next == pos + |EncList(xs, EncStr)|
    ensures buf[..next] == old(buf[..pos]) + EncList(xs, EncStr)
  {
    hide EncCount, EncFirst, EncList, EncStr, TextOk;
    ghost var p, enc := buf[..pos], EncStr;
    FirstEnds(xs, enc);
    next := WriteCount(buf, pos, |xs|);
    for i := 0 to |xs|
      invariant next == pos + |EncFirst(xs, enc, i)| <= buf.Length
      invariant buf[..next] == p + EncFirst(xs, enc, i)
    {
      FirstNext(p, xs, enc, i);
      next := WriteText(buf, next, xs[i]);
    }
  }

  method WriteAction(ieee: Ieee, buf: array<Byte>, pos: nat, a: Action) returns (next: nat)
    requires ActionOk(ieee, a) && pos + |EncAction(ieee, a)| <= buf.Length
    modifies buf
    ensures next == pos + |EncAction(ieee, a)|
    ensures buf[..next] == old(buf[..pos]) + EncAction(ieee, a)
  {
    hide EncHead, EncStr, EncNum, NumSize, EncList, TextOk, TextsOk;
    ghost var p, c := buf[..pos], EncArray(8);
    next := WriteCount(buf, pos, 8);
    next := WriteText(buf, next, a.id);
    Assoc(p, c, EncStr(a.id));
    c := c + EncStr(a.id);
    next := WriteText(buf, next, a.name);
    Assoc(p, c, EncStr(a.name));
    c := c + EncStr(a.name);
    next := WriteText(buf, next, a.cost);
    Assoc(p, c, EncStr(a.cost));
    c := c + EncStr(a.cost);
    next := WriteText(buf, next, a.dest);
    Assoc(p, c, EncStr(a.dest));
    c := c + EncStr(a.dest);
    next := WriteNum(ieee, buf, next, a.dur);
    Assoc(p, c, EncNum(ieee, a.dur));
    c := c + EncNum(ieee, a.dur);
    next := WriteText(buf, next, a.exec);
    Assoc(p, c, EncStr(a.exec));
    c := c + EncStr(a.exec);
    next := WriteTexts(buf, next, a.pre);
    Assoc(p, c, EncList(a.pre, EncStr));
    c := c + EncList(a.pre, EncStr);
    next := WriteTexts(buf, next, a.eff);
    Assoc(p, c, EncList(a.eff, EncStr));
  }

  method WriteActions(ieee: Ieee, buf: array<Byte>, pos: nat, xs: seq<Action>) returns (next: nat)
    requires |xs| < TWO_32 && forall i :: 0 <= i < |xs| ==> ActionOk(ieee, xs[i])
    requires pos + |EncActions(ieee, xs)| <= buf.Length
    modifies buf
    ensures next == pos + |EncActions(ieee, xs)|
    ensures buf[..next] == old(buf[..pos]) + EncActions(ieee, xs)
  {
    hide EncCount, EncFirst, EncList, EncAction, ActionOk;
    ghost var p, enc := buf[..pos], (x: Action) => EncAction(ieee, x);
    FirstEnds(xs, enc);
    next := WriteCount(buf, pos, |xs|);
    for i := 0 to |xs|
      invariant next == pos + |EncFirst(xs, enc, i)| <= buf.Length
      invariant buf[..next] == p + EncFirst(xs, enc, i)
    {
      FirstNext(p, xs, enc, i);
      next := WriteAction(ieee, buf, next, xs[i]);
    }
  }

  method WriteGoal(ieee: Ieee, buf: array<Byte>, pos: nat, g: Goal) returns (next: nat)
    requires GoalOk(ieee, g) && pos + |EncGoal(ieee, g)| <= buf.Length
    modifies buf
    ensures next == pos + |EncGoal(ieee, g)|
    ensures buf[..next] == old(buf[..pos]) + EncGoal(ieee, g)
  {
    hide EncHead, EncStr, EncNum, NumSize, EncList, TextOk, TextsOk;
    ghost var p, c := buf[..pos], EncArray(5);
    next := WriteCount(buf, pos, 5);
    next := WriteText(buf, next, g.id);
    Assoc(p, c, EncStr(g.id));
    c := c + EncStr(g.id);
    next := WriteText(buf, next, g.name);
    Assoc(p, c, EncStr(g.name));
    c := c + EncStr(g.name);
    next := WriteText(buf, next, g.expr);
    Assoc(p, c, EncStr(g.expr));
    c := c + EncStr(g.expr);
    next := WriteNum(ieee, buf, next, g.priority);
    Assoc(p, c, EncNum(ieee, g.priority));
    c := c + EncNum(ieee, g.priority);
    next := WriteText(buf, next, g.curve);
    Assoc(p, c, EncStr(g.curve));
  }

  method WriteGoals(ieee: Ieee, buf: array<Byte>, pos: nat, xs: seq<Goal>) returns (next: nat)
    requires |xs| < TWO_32 && forall i :: 0 <= i < |xs| ==> GoalOk(ieee, xs[i])
    requires pos + |EncGoals(ieee, xs)| <= buf.Length
    modifies buf
    ensures next == pos + |EncGoals(ieee, xs)|
    ensures buf[..next] == old(buf[..pos]) + EncGoals(ieee, xs)
  {
    hide EncCount, EncFirst, EncList, EncGoal, GoalOk;
    ghost var p, enc := buf[..pos], (x: Goal) => EncGoal(ieee, x);
    FirstEnds(xs, enc);
    next := WriteCount(buf, pos, |xs|);
    for i := 0 to |xs|
      invariant next == pos + |EncFirst(xs, enc, i)| <= buf.Length
      invariant buf[..next] == p + EncFirst(xs, enc, i)
    {
      FirstNext(p, xs, enc, i);
      next := WriteGoal(ieee, buf, next, xs[i]);
    }
  }

  method WritePoint(ieee: Ieee, buf: array<Byte>, pos: nat, q: Point) returns (next: nat)
    requires pos + |EncPoint(ieee, q)| <= buf.Length
    modifies buf
    ensures next == pos + |EncPoint(ieee, q)|
    ensures buf[..next] == old(buf[..pos]) + EncPoint(ieee, q)
  {
    hide EncHead, EncStr, EncNum, NumSize, EncList, TextOk, TextsOk;
    ghost var p, c := buf[..pos], EncArray(2);
    next := WriteCount(buf, pos, 2);
    next := WriteNum(ieee, buf, next, q.x);
    Assoc(p, c, EncNum(ieee, q.x));
    c := c + EncNum(ieee, q.x);
    next := WriteNum(ieee, buf, next, q.y);
    Assoc(p, c, EncNum(ieee, q.y));
  }

  method WritePoints(ieee: Ieee, buf: array<Byte>, pos: nat, xs: seq<Point>) returns (next: nat)
    requires |xs| < TWO_32
    requires pos + |EncPoints(ieee, xs)| <= buf.Length
    modifies buf
    ensures next == pos + |EncPoints(ieee, xs)|
    ensures buf[..next] == old(buf[..pos]) + EncPoints(ieee, xs)
  {
    hide EncCount, EncFirst, EncList, EncPoint;
    ghost var p, enc := buf[..pos], (x: Point) => EncPoint(ieee, x);
    FirstEnds(xs, enc);
    next := WriteCount(buf, pos, |xs|);
    for i := 0 to |xs|
      invariant next == pos + |EncFirst(xs, enc, i)| <= buf.Length
      invariant buf[..next] == p + EncFirst(xs, enc, i)
    {
      FirstNext(p, xs, enc, i);
      next := WritePoint(ieee, buf, next, xs[i]);
    }
  }

  method WriteUtility(ieee: Ieee, buf: array<Byte>, pos: nat, u: Utility) returns (next: nat)
    requires UtilityOk(ieee, u) && pos + |EncUtility(ieee, u)| <= buf.Length
    modifies buf
    ensures next == pos + |EncUtility(ieee, u)|
    ensures buf[..next] == old(buf[..pos]) + EncUtility(ieee, u)
  {
    hide EncHead, EncStr, EncNum, NumSize, EncPoints, TextOk;
    ghost var p, c := buf[..pos], EncArray(7);
    next := WriteCount(buf, pos, 7);
    next := WriteText(buf, next, u.id);
    Assoc(p, c, EncStr(u.id));
    c := c + EncStr(u.id);
    next := WriteText(buf, next, u.name);
    Assoc(p, c, EncStr(u.name));
    c := c + EncStr(u.name);
    next := WriteText(buf, next, u.dim);
    Assoc(p, c, EncStr(u.dim));
    c := c + EncStr(u.dim);
    next := WriteNum(ieee, buf, next, u.xMin);
    Assoc(p, c, EncNum(ieee, u.xMin));
    c := c + EncNum(ieee, u.xMin);
    next := WriteNum(ieee, buf, next, u.xMax);
    Assoc(p, c, EncNum(ieee, u.xMax));
    c := c + EncNum(ieee, u.xMax);
    next := WritePoints(ieee, buf, next, u.points);
    Assoc(p, c, EncPoints(ieee, u.points));
  }

  method WriteUtilities(ieee: Ieee, buf: array<Byte>, pos: nat, xs: seq<Utility>) returns (next: nat)
    requires |xs| < TWO_32 && forall i :: 0 <= i < |xs| ==> UtilityOk(ieee, xs[i])
    requires pos + |EncUtilities(ieee, xs)| <= buf.Length
    modifies buf
    ensures next == pos + |EncUtilities(ieee, xs)|
    ensures buf[..next] == old(buf[..pos]) + EncUtilities(ieee, xs)
  {
    hide EncCount, EncFirst, EncList, EncUtility, UtilityOk;
    ghost var p, enc := buf[..pos], (x: Utility) => EncUtility(ieee, x);
    FirstEnds(xs, enc);
    next := WriteCount(buf, pos, |xs|);
    for i := 0 to |xs|
      invariant next == pos + |EncFirst(xs, enc, i)| <= buf.Length
      invariant buf[..next] == p + EncFirst(xs, enc, i)
    {
      FirstNext(p, xs, enc, i);
      next := WriteUtility(ieee, buf, next, xs[i]);
    }
  }

  method WriteMission(buf: array<Byte>, pos: nat, m: Mission) returns (next: nat)
    requires MissionOk(m) && pos + |EncMission(m)| <= buf.Length
    modifies buf
    ensures next == pos + |EncMission(m)|
    ensures buf[..next] == old(buf[..pos]) + EncMission(m)
  {
    hide EncHead, EncStr, EncNum, NumSize, EncList, TextOk, TextsOk;
    ghost var p, c := buf[..pos], EncArray(4);
    next := WriteCount(buf, pos, 4);
    next := WriteText(buf, next, m.id);
    Assoc(p, c, EncStr(m.id));
    c := c + EncStr(m.id);
    next := WriteText(buf, next, m.name);
    Assoc(p, c, EncStr(m.name));
    c := c + EncStr(m.name);
    next := WriteTexts(buf, next, m.goals);
    Assoc(p, c, EncList(m.goals, EncStr));
    c := c + EncList(m.goals, EncStr);
    next := WriteText(buf, next, m.note);
    Assoc(p, c, EncStr(m.note));
  }

  method WriteMissions(buf: array<Byte>, pos: nat, xs: seq<Mission>) returns (next: nat)
    requires |xs| < TWO_32 && forall i :: 0 <= i < |xs| ==> MissionOk(xs[i])
    requires pos + |EncMissions(xs)| <= buf.Length
    modifies buf
    ensures next == pos + |EncMissions(xs)|
    ensures buf[..next] == old(buf[..pos]) + EncMissions(xs)
  {
    hide EncCount, EncFirst, EncList, EncMission, MissionOk;
    ghost var p, enc := buf[..pos], EncMission;
    FirstEnds(xs, enc);
    next := WriteCount(buf, pos, |xs|);
    for i := 0 to |xs|
      invariant next == pos + |EncFirst(xs, enc, i)| <= buf.Length
      invariant buf[..next] == p + EncFirst(xs, enc, i)
    {
      FirstNext(p, xs, enc, i);
      next := WriteMission(buf, next, xs[i]);
    }
  }

  method WriteBody(ieee: Ieee, buf: array<Byte>, pos: nat, g: Goap) returns (next: nat)
    requires GoapOk(ieee, g) && pos + |EncBody(ieee, g)| <= buf.Length
    modifies buf
    ensures next == pos + |EncBody(ieee, g)|
    ensures buf[..next] == old(buf[..pos]) + EncBody(ieee, g)
  {
    hide EncHead, EncStr, EncActions, EncGoals, EncUtilities, EncMissions, TextOk, ActionOk, ActionFits, GoalOk,
         GoalFits, UtilityOk, UtilityFits, MissionOk, MissionFits, InsertionSort.Sorted;
    ghost var p, c := buf[..pos], EncArray(5);
    next := WriteCount(buf, pos, 5);
    next := WriteText(buf, next, g.name);
    Assoc(p, c, EncStr(g.name));
    c := c + EncStr(g.name);
    next := WriteActions(ieee, buf, next, g.actions);
    Assoc(p, c, EncActions(ieee, g.actions));
    c := c + EncActions(ieee, g.actions);
    next := WriteGoals(ieee, buf, next, g.goals);
    Assoc(p, c, EncGoals(ieee, g.goals));
    c := c + EncGoals(ieee, g.goals);
    next := WriteUtilities(ieee, buf, next, g.utilities);
    Assoc(p, c, EncUtilities(ieee, g.utilities));
    c := c + EncUtilities(ieee, g.utilities);
    next := WriteMissions(buf, next, g.missions);
    Assoc(p, c, EncMissions(g.missions));
  }

  // ----- What the add functions build ---------------------------------------------------------------

  lemma NamedOk(ieee: Ieee, t: Text)
    requires TextOk(t) && Fits(t, ID_CAP)
    ensures GoapOk(ieee, EMPTY.(name := t))
  {}

  lemma AddActionOk(ieee: Ieee, g: Goap, a: Action)
    requires GoapOk(ieee, g) && ActionOk(ieee, a) && ActionFits(a) && |g.actions| + 1 < TWO_32
    ensures GoapOk(ieee, g.(actions := g.actions + [a]))
  {
    hide ActionOk, ActionFits, GoalOk, GoalFits, UtilityOk, UtilityFits, MissionOk, MissionFits, TextOk, Fits;
  }

  lemma AddGoalOk(ieee: Ieee, g: Goap, x: Goal)
    requires GoapOk(ieee, g) && GoalOk(ieee, x) && GoalFits(x) && |g.goals| + 1 < TWO_32
    ensures GoapOk(ieee, g.(goals := g.goals + [x]))
  {
    hide ActionOk, ActionFits, GoalOk, GoalFits, UtilityOk, UtilityFits, MissionOk, MissionFits, TextOk, Fits;
  }

  lemma AddUtilityOk(ieee: Ieee, g: Goap, u: Utility)
    requires GoapOk(ieee, g) && UtilityOk(ieee, u) && UtilityFits(u) && |g.utilities| + 1 < TWO_32
    ensures GoapOk(ieee, g.(utilities := g.utilities + [PointsSorted(u)]))
  {
    hide ActionOk, ActionFits, GoalOk, GoalFits, UtilityOk, MissionOk, MissionFits, TextOk, InsertionSort.Sorted,
         InsertionSort.Sort;
    PointsSortedOk(ieee, u);
  }

  lemma AddMissionOk(ieee: Ieee, g: Goap, m: Mission)
    requires GoapOk(ieee, g) && MissionOk(m) && MissionFits(m) && |g.missions| + 1 < TWO_32
    ensures GoapOk(ieee, g.(missions := g.missions + [m]))
  {
    hide ActionOk, ActionFits, GoalOk, GoalFits, UtilityOk, UtilityFits, MissionOk, MissionFits, TextOk, Fits;
  }

  // ----- The planner object ------------------------------------------------------------------------

  class Tables {
    const ieee: Ieee
    var name: Text
    var actions: seq<Action>
    var goals: seq<Goal>
    var utilities: seq<Utility>
    var missions: seq<Mission>

    function Contents(): Goap
      reads this
    {
      Goap(name, actions, goals, utilities, missions)
    }

    /** The tables can be serialized and loaded back. */
    ghost predicate Valid()
      reads this
    {
      ieee.Valid() && GoapOk(ieee, Contents())
    }

    constructor (doubles: Ieee)
      requires doubles.Valid()
      ensures Valid() && ieee == doubles && Contents() == EMPTY
    {
      ieee := doubles;
      name, actions, goals, utilities, missions := [], [], [], [], [];
    }

    /** A name that does not fit leaves the name empty. */
    method SetName(t: Text) returns (ok: bool)
      requires Valid() && TextOk(t)
      modifies this
      ensures Valid() && ok == Fits(t, ID_CAP) && Contents() == old(Contents()).(name := if ok then t else [])
    {
      ok := Fits(t, ID_CAP);
      name := if ok then t else [];
    }

    method AddAction(def: Action) returns (ok: bool)
      requires Valid() && ActionOk(ieee, def) && |actions| + 1 < TWO_32
      modifies this
      ensures Valid() && ok == ActionFits(def)
      ensures Contents() == if ok then old(Contents()).(actions := old(actions) + [def]) else old(Contents())
    {
      hide GoapOk, ActionOk, ActionFits, Ieee.Valid;
      ok := ActionFits(def);
      if ok {
        AddActionOk(ieee, Contents(), def);
        actions := actions + [def];
      }
    }

    method AddGoal(def: Goal) returns (ok: bool)
      requires Valid() && GoalOk(ieee, def) && |goals| + 1 < TWO_32
      modifies this
      ensures Valid() && ok == GoalFits(def)
      ensures Contents() == if ok then old(Contents()).(goals := old(goals) + [def]) else old(Contents())
    {
      hide GoapOk, GoalOk, GoalFits, Ieee.Valid;
      ok := GoalFits(def);
      if ok {
        AddGoalOk(ieee, Contents(), def);
        goals := goals + [def];
      }
    }

    method AddMission(def: Mission) returns (ok: bool)
      requires Valid() && MissionOk(def) && |missions| + 1 < TWO_32
      modifies this
      ensures Valid() && ok == MissionFits(def)
      ensures Contents() == if ok then old(Contents()).(missions := old(missions) + [def]) else old(Contents())
    {
      hide GoapOk, MissionOk, MissionFits, Ieee.Valid;
      ok := MissionFits(def);
      if ok {
        AddMissionOk(ieee, Contents(), def);
        missions := missions + [def];
      }
    }

    /** The points are copied and sorted in place by ascending x. */
    method AddUtility(def: Utility) returns (ok: bool)
      requires Valid() && UtilityOk(ieee, def) && |utilities| + 1 < TWO_32
      modifies this
      ensures Valid() && ok == UtilityFits(def)
      ensures Contents() == if ok then old(Contents()).(utilities := old(utilities) + [PointsSorted(def)])
              else old(Contents())
    {
      hide GoapOk, UtilityOk, UtilityFits, Ieee.Valid, InsertionSort.Sort, Right;
      ok := UtilityFits(def);
      if ok {
        AddUtilityOk(ieee, Contents(), def);
        var points := new Point[|def.points|](i requires 0 <= i < |def.points| => def.points[i]);
        assert points[..points.Length] == def.points;
        InsertionSort.SortArray(points, points.Length, Right());
        assert points[..points.Length] == points[..];
        utilities := utilities + [def.(points := points[..])];
      }
    }

    /** fleece_goap_serialize: the measured allocation is filled to its last byte. */
    method Serialize() returns (blob: array<Byte>)
      requires Valid()
      ensures fresh(blob) && blob[..] == EncBlob(ieee, Contents()) && blob.Length == 3 + BodySize(Contents())
    {
      hide GoapOk, EncBody, TextSize, ListSize;
      BodySizeExact(ieee, Contents());
      var nActions := MeasureList(actions, ActionSize);
      var nGoals := MeasureList(goals, GoalSize);
      var nUtilities := MeasureList(utilities, UtilitySize);
      var nMissions := MeasureList(missions, MissionSize);
      blob := new Byte[3 + UintSize(5) + TextSize(name) + nActions + nGoals + nUtilities + nMissions];
      var pos := WriteRaw(blob, 0, BLOB_MAGIC);
      assert blob[..pos] == BLOB_MAGIC;
      pos := WriteBody(ieee, blob, pos, Contents());
      assert blob[..pos] == blob[..];
    }

    method LoadActions(b: seq<Byte>, pos: nat) returns (next: nat, ok: bool)
      requires Valid() && |b| < TWO_32 && actions == []
      modifies this
      ensures Valid()
      ensures var m := ReadActions(ieee, b, pos);
              ok == m.ok && next == m.next && Contents() == old(Contents()).(actions := m.items)
    {
      hide ReadHead, ReadActionDef, ActionFits, ActionOk, ReadMany, GoapOk, Ieee.Valid;
      var c := ReadCount(b, pos);
      if c.Fail? { return pos, false; }
      next := c.next;
      ghost var read := (p: nat) => ReadAction(ieee, b, p);
      for i := 0 to c.val
        invariant Valid() && i == |actions| <= next <= |b| && Contents() == old(Contents()).(actions := actions)
        invariant var rest := ReadMany(read, next, c.val - i);
          ReadMany(read, c.next, c.val) == Many(actions + rest.items, rest.next, rest.ok)
      {
        ManyNext(read, actions, next, c.val - i);
        var d := ReadActionDef(ieee, b, next);
        if d.Fail? { return next, false; }
        ActionYields(ieee, b, next);
        var added := AddAction(d.val);
        if !added { return next, false; }
        next := d.next;
      }
      ManyDone(read, next);
      ok := true;
    }

    method LoadGoals(b: seq<Byte>, pos: nat) returns (next: nat, ok: bool)
      requires Valid() && |b| < TWO_32 && goals == []
      modifies this
      ensures Valid()
      ensures var m := ReadGoals(ieee, b, pos);
              ok == m.ok && next == m.next && Contents() == old(Contents()).(goals := m.items)
    {
      hide ReadHead, ReadGoalDef, GoalFits, GoalOk, ReadMany, GoapOk, Ieee.Valid;
      var c := ReadCount(b, pos);
      if c.Fail? { return pos, false; }
      next := c.next;
      ghost var read := (p: nat) => ReadGoal(ieee, b, p);
      for i := 0 to c.val
        invariant Valid() && i == |goals| <= next <= |b| && Contents() == old(Contents()).(goals := goals)
        invariant var rest := ReadMany(read, next, c.val - i);
          ReadMany(read, c.next, c.val) == Many(goals + rest.items, rest.next, rest.ok)
      {
        ManyNext(read, goals, next, c.val - i);
        var d := ReadGoalDef(ieee, b, next);
        if d.Fail? { return next, false; }
        GoalYields(ieee, b, next);
        var added := AddGoal(d.val);
        if !added { return next, false; }
        next := d.next;
      }
      ManyDone(read, next);
      ok := true;
    }

    /** Each curve's points go through a buffer of their own; nothing is promised once a store
        misses it. */
    method LoadUtilities(b: seq<Byte>, pos: nat) returns (next: nat, ok: bool, inRange: bool)
      requires Valid() && |b| < TWO_32 && utilities == []
      modifies this
      ensures inRange <==> PB.CurveTable(ieee, b, pos, PB.Fits(ieee, b))
      ensures inRange ==> Valid()
      ensures inRange ==>
                var m := ReadUtilities(ieee, b, pos);
                ok == m.ok && next == m.next && Contents() == old(Contents()).(utilities := m.items)
    {
      hide ReadHead, ReadCurve, ReadPoints, UtilityFits, UtilityOk, PointsSorted, ReadMany, GoapOk, Ieee.Valid,
           PB.InRange;
      inRange := true;
      var c := ReadCount(b, pos);
      if c.Fail? { return pos, false, true; }
      next := c.next;
      ghost var read, fits := (p: nat) => ReadUtility(ieee, b, p), PB.Fits(ieee, b);
      for i := 0 to c.val
        invariant Valid() && i == |utilities| <= next <= |b| && inRange
        invariant Contents() == old(Contents()).(utilities := utilities)
        invariant PB.EachCurve(ieee, b, c.next, c.val, fits) <==> PB.EachCurve(ieee, b, next, c.val - i, fits)
        invariant var rest := ReadMany(read, next, c.val - i);
          ReadMany(read, c.next, c.val) == Many(utilities + rest.items, rest.next, rest.ok)
      {
        ManyNext(read, utilities, next, c.val - i);
        CurveNext(b, next, c.val - i);
        var u := ReadCurve(ieee, b, next);
        if u.Fail? { return next, false, true; }
        var pts, within := PB.LoadPoints(ieee, b, u.next);
        if !within { return next, false, false; }
        if !pts.ok { return next, false, true; }
        UtilityYields(ieee, b, next);
        var added := AddUtility(u.val.(points := pts.items));
        if !added { return next, false, true; }
        next := pts.next;
      }
      ManyDone(read, next);
      ok := true;
    }

    lemma CurveNext(b: seq<Byte>, pos: nat, n: nat)
      requires n > 0
      ensures PB.EachCurve(ieee, b, pos, n, PB.Fits(ieee, b)) <==>
              && (ReadCurve(ieee, b, pos).Ok? ==> PB.InRange(ieee, b, ReadCurve(ieee, b, pos).next))
              && (ReadUtility(ieee, b, pos).Ok? ==>
                    PB.EachCurve(ieee, b, ReadUtility(ieee, b, pos).next, n - 1, PB.Fits(ieee, b)))
    {
      hide ReadCurve, ReadUtility, PB.InRange;
    }

    method LoadMissions(b: seq<Byte>, pos: nat) returns (next: nat, ok: bool)
      requires Valid() && |b| < TWO_32 && missions == []
      modifies this
      ensures Valid()
      ensures var m := ReadMissions(b, pos);
              ok == m.ok && next == m.next && Contents() == old(Contents()).(missions := m.items)
    {
      hide ReadHead, ReadMissionDef, MissionFits, MissionOk, ReadMany, GoapOk, Ieee.Valid;
      var c := ReadCount(b, pos);
      if c.Fail? { return pos, false; }
      next := c.next;
      ghost var read := (p: nat) => ReadMission(b, p);
      for i := 0 to c.val
        invariant Valid() && i == |missions| <= next <= |b| && Contents() == old(Contents()).(missions := missions)
        invariant var rest := ReadMany(read, next, c.val - i);
          ReadMany(read, c.next, c.val) == Many(missions + rest.items, rest.next, rest.ok)
      {
        ManyNext(read, missions, next, c.val - i);
        var d := ReadMissionDef(b, next);
        if d.Fail? { return next, false; }
        MissionYields(b, next);
        var added := AddMission(d.val);
        if !added { return next, false; }
        next := d.next;
      }
      ManyDone(read, next);
      ok := true;
    }

    /** fleece_goap_deserialize on arbitrary bytes. A refused prefix changes nothing. `inRange` says
        whether every point was stored inside its buffer, which is so for every blob that loads
        successfully (PointBuffer.GoodBlobsInRange); otherwise nothing is promised. */
    method Deserialize(b: seq<Byte>) returns (ok: bool, inRange: bool)
      requires Valid() && |b| < TWO_32
      modifies this
      ensures inRange <==> PB.BlobInRange(ieee, b)
      ensures inRange ==> Valid()
      ensures inRange ==>
                match ReadBlob(ieee, b)
                case None => !ok && Contents() == old(Contents())
                case Some(l) => ok == l.ok && Contents() == l.tables
    {
      hide ReadArity, ReadName, ReadActions, ReadGoals, ReadUtilities, ReadMissions, GoapOk, Ieee.Valid,
           PB.CurveTable;
      ok, inRange := false, true;
      if |b| < 3 || b[..3] != BLOB_MAGIC { return; }
      var h := ReadArity(b, 3, 5);
      if h.Fail? { return; }
      name, actions, goals, utilities, missions := [], [], [], [], [];
      NamedOk(ieee, []);
      var nm := ReadName(b, h.next);
      if nm.Fail? { return; }
      name := nm.val;
      NameYields(b, h.next);
      NamedOk(ieee, nm.val);
      var pos;
      pos, ok := LoadActions(b, nm.next);
      if !ok { return; }
      pos, ok := LoadGoals(b, pos);
      if !ok { return; }
      pos, ok, inRange := LoadUtilities(b, pos);
      if !ok || !inRange { return; }
      pos, ok := LoadMissions(b, pos);
    }
  }

  /** A planner saved and loaded again is the same planner, with every store in range. */
  method Reload(source: Tables, target: Tables) returns (ok: bool)
    requires source.Valid() && target.Valid() && source != target && source.ieee == target.ieee
    requires 3 + BodySize(source.Contents()) < TWO_32
    modifies target
    ensures ok && target.Valid() && target.Contents() == source.Contents()
  {
    hide GoapOk, Ieee.Valid, ReadBlob, EncBlob, BodySize, PB.BlobInRange;
    var blob := source.Serialize();
    BlobRoundTrip(source.ieee, source.Contents());
    PB.GoodBlobsInRange(source.ieee, blob[..]);
    var inRange;
    ok, inRange := target.Deserialize(blob[..]);
  }
}
