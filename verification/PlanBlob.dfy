/** The plan blob: 'F' 'P' 2 followed by nested CBOR arrays for the name, actions, goals, utility
    curves and missions of a planner (src/planner/fleece_planner.c). Strings are C strings;
    numbers are doubles by value. */
module PlanBlob {
  import opened Bytes
  import opened Cbor
  import InsertionSort

  type Text = seq<Byte>

  const BLOB_MAGIC: seq<Byte> := [0x46, 0x50, 2]

  /** FLEECE_GOAP_NAME_MAX - 1, FLEECE_GOAP_SOURCE_MAX - 1, FLEECE_GOAP_NOTE_MAX - 1 */
  const ID_CAP: nat := 63
  const SOURCE_CAP: nat := 2047
  const NOTE_CAP: nat := 127

  datatype Action = Action(id: Text, name: Text, cost: Text, dest: Text, dur: real, exec: Text, pre: seq<Text>,
                           eff: seq<Text>)
  datatype Goal = Goal(id: Text, name: Text, expr: Text, priority: real, curve: Text)
  datatype Point = Point(x: real, y: real)
  datatype Utility = Utility(id: Text, name: Text, dim: Text, xMin: real, xMax: real, points: seq<Point>)
  datatype Mission = Mission(id: Text, name: Text, goals: seq<Text>, note: Text)
  datatype Goap = Goap(name: Text, actions: seq<Action>, goals: seq<Goal>, utilities: seq<Utility>,
                       missions: seq<Mission>)

  // ----- Tables the add functions can have built --------------------------------------------

  /** A text that fits a fixed field: copy_str refuses longer ones. */
  predicate Fits(t: Text, cap: nat) { |t| <= cap }

  /** C strings hold no NUL; owned copies have no length limit of their own. */
  predicate TextOk(t: Text) { |t| < TWO_32 && 0 !in t }

  predicate TextsOk(ts: seq<Text>) { |ts| < TWO_32 && forall i :: 0 <= i < |ts| ==> TextOk(ts[i]) }

  predicate ActionFits(a: Action)
  {
    && Fits(a.id, ID_CAP) && Fits(a.name, ID_CAP) && Fits(a.cost, SOURCE_CAP)
    && Fits(a.exec, SOURCE_CAP) && Fits(a.dest, ID_CAP)
  }

  predicate GoalFits(g: Goal)
  {
    Fits(g.id, ID_CAP) && Fits(g.name, ID_CAP) && Fits(g.expr, SOURCE_CAP) && Fits(g.curve, ID_CAP)
  }

  predicate UtilityFits(u: Utility) { Fits(u.id, ID_CAP) && Fits(u.name, ID_CAP) && Fits(u.dim, ID_CAP) }

  predicate MissionFits(m: Mission) { Fits(m.id, ID_CAP) && Fits(m.name, ID_CAP) && Fits(m.note, NOTE_CAP) }

  /** What a C caller can pass at all: NUL-free strings, doubles, 32-bit counts. */
  ghost predicate ActionOk(ieee: Ieee, a: Action)
  {
    && TextOk(a.id) && TextOk(a.name) && TextOk(a.cost) && TextOk(a.dest) && TextOk(a.exec)
    && ieee.Exact(a.dur) && TextsOk(a.pre) && TextsOk(a.eff)
  }

  ghost predicate GoalOk(ieee: Ieee, g: Goal)
  {
    TextOk(g.id) && TextOk(g.name) && TextOk(g.expr) && TextOk(g.curve) && ieee.Exact(g.priority)
  }

  ghost predicate PointOk(ieee: Ieee, p: Point) { ieee.Exact(p.x) && ieee.Exact(p.y) }

  ghost predicate UtilityOk(ieee: Ieee, u: Utility)
  {
    && TextOk(u.id) && TextOk(u.name) && TextOk(u.dim) && ieee.Exact(u.xMin) && ieee.Exact(u.xMax)
    && |u.points| < TWO_32 && forall i :: 0 <= i < |u.points| ==> PointOk(ieee, u.points[i])
  }

  ghost predicate MissionOk(m: Mission) { TextOk(m.id) && TextOk(m.name) && TextOk(m.note) && TextsOk(m.goals) }

  /** The loop guard of the point sort. */
  function Right(): (Point, Point) -> bool { (p: Point, q: Point) => p.x > q.x }

  /** fleece_goap_add_utility keeps the points in ascending order of x. */
  function PointsSorted(u: Utility): Utility { u.(points := InsertionSort.Sort(u.points, Right())) }

  /** Tables the add functions can have built. */
  ghost predicate GoapOk(ieee: Ieee, g: Goap)
  {
    && TextOk(g.name) && Fits(g.name, ID_CAP)
    && |g.actions| < TWO_32 && |g.goals| < TWO_32 && |g.utilities| < TWO_32 && |g.missions| < TWO_32
    && (forall i :: 0 <= i < |g.actions| ==> ActionOk(ieee, g.actions[i]) && ActionFits(g.actions[i]))
    && (forall i :: 0 <= i < |g.goals| ==> GoalOk(ieee, g.goals[i]) && GoalFits(g.goals[i]))
    && (forall i :: 0 <= i < |g.utilities| ==>
          UtilityOk(ieee, g.utilities[i]) && UtilityFits(g.utilities[i])
              && InsertionSort.Sorted(g.utilities[i].points, Right()))
    && (forall i :: 0 <= i < |g.missions| ==> MissionOk(g.missions[i]) && MissionFits(g.missions[i]))
  }

  // ----- Encoding ------------------------------------------------------------------------------

  function EncStr(t: Text): seq<Byte>
  {
    if |t| < TWO_64 then EncText(t) else []
  }

  function EncCount(n: nat): seq<Byte>
  {
    if n < TWO_64 then EncArray(n) else []
  }

  function EncEach<T>(xs: seq<T>, enc: T -> seq<Byte>): seq<Byte>
  {
    if xs == [] then [] else EncEach(xs[..|xs| - 1], enc) + enc(xs[|xs| - 1])
  }

  /** A counted array. */
  function EncList<T>(xs: seq<T>, enc: T -> seq<Byte>): seq<Byte>
  {
    EncCount(|xs|) + EncEach(xs, enc)
  }

  function EncAction(ieee: Ieee, a: Action): seq<Byte>
  {
    EncArray(8) + EncStr(a.id) + EncStr(a.name) + EncStr(a.cost) + EncStr(a.dest) + EncNum(ieee, a.dur)
    + EncStr(a.exec) + EncList(a.pre, EncStr) + EncList(a.eff, EncStr)
  }

  function EncGoal(ieee: Ieee, g: Goal): seq<Byte>
  {
    EncArray(5) + EncStr(g.id) + EncStr(g.name) + EncStr(g.expr) + EncNum(ieee, g.priority) + EncStr(g.curve)
  }

  function EncPoint(ieee: Ieee, p: Point): seq<Byte>
  {
    EncArray(2) + EncNum(ieee, p.x) + EncNum(ieee, p.y)
  }

  function EncPoints(ieee: Ieee, ps: seq<Point>): seq<Byte>
  {
    EncList(ps, (p: Point) => EncPoint(ieee, p))
  }

  function EncUtility(ieee: Ieee, u: Utility): seq<Byte>
  {
    EncArray(7) + EncStr(u.id) + EncStr(u.name) + EncStr(u.dim) + EncNum(ieee, u.xMin) + EncNum(ieee, u.xMax)
    + EncPoints(ieee, u.points)
  }

  function EncMission(m: Mission): seq<Byte>
  {
    EncArray(4) + EncStr(m.id) + EncStr(m.name) + EncList(m.goals, EncStr) + EncStr(m.note)
  }

  function EncActions(ieee: Ieee, xs: seq<Action>): seq<Byte> { EncList(xs, (x: Action) => EncAction(ieee, x)) }

  function EncGoals(ieee: Ieee, xs: seq<Goal>): seq<Byte> { EncList(xs, (x: Goal) => EncGoal(ieee, x)) }

  function EncUtilities(ieee: Ieee, xs: seq<Utility>): seq<Byte> { EncList(xs, (x: Utility) => EncUtility(ieee, x)) }

  function EncMissions(xs: seq<Mission>): seq<Byte> { EncList(xs, EncMission) }

  function EncBody(ieee: Ieee, g: Goap): seq<Byte>
  {
    EncArray(5) + EncStr(g.name) + EncActions(ieee, g.actions) + EncGoals(ieee, g.goals)
    + EncUtilities(ieee, g.utilities) + EncMissions(g.missions)
  }

  function EncBlob(ieee: Ieee, g: Goap): seq<Byte>
  {
    BLOB_MAGIC + EncBody(ieee, g)
  }

  // ----- Decoding --------------------------------------------------------------------------------

  datatype Parse<+T> = Fail | Ok(val: T, next: nat)

  /** read_text_dyn */
  function ReadText(b: seq<Byte>, pos: nat): Parse<Text>
  {
    var s := ReadString(b, pos, 3);
    if s.NoStr? then Fail else Ok(CString(s.bytes), s.next)
  }

  /** The blob's own name is cut to its field instead of refused. */
  function ReadName(b: seq<Byte>, pos: nat): Parse<Text>
  {
    var s := ReadString(b, pos, 3);
    if s.NoStr? then Fail
    else Ok(CString(if |s.bytes| < ID_CAP then s.bytes else s.bytes[..ID_CAP]), s.next)
  }

  function ReadCount(b: seq<Byte>, pos: nat): Parse<nat>
  {
    var h := ReadHead(b, pos);
    if h.NoHead? || h.major != 4 then Fail else Ok(h.value, h.next)
  }

  /** An array head of a fixed arity. */
  function ReadArity(b: seq<Byte>, pos: nat, n: nat): Parse<nat>
  {
    var c := ReadCount(b, pos);
    if c.Fail? || c.val != n then Fail else c
  }

  function ReadReal(ieee: Ieee, b: seq<Byte>, pos: nat): Parse<real>
  {
    var n := ReadNum(ieee, b, pos);
    if n.NoNum? then Fail else Ok(n.val, n.next)
  }

  /** The items read before the first one that fails, if one does. */
  datatype Many<+T> = Many(items: seq<T>, next: nat, ok: bool)

  function ReadMany<T>(read: nat -> Parse<T>, pos: nat, n: nat): Many<T>
    decreases n
  {
    if n == 0 then Many([], pos, true) else
      var x := read(pos);
      if x.Fail? then Many([], pos, false) else
      var rest := ReadMany(read, x.next, n - 1);
      Many([x.val] + rest.items, rest.next, rest.ok)
  }

  function ReadTable<T>(b: seq<Byte>, read: nat -> Parse<T>, pos: nat): Many<T>
  {
    var c := ReadCount(b, pos);
    if c.Fail? then Many([], pos, false) else ReadMany(read, c.next, c.val)
  }

  function ReadTexts(b: seq<Byte>, pos: nat): Many<Text>
  {
    ReadTable(b, (p: nat) => ReadText(b, p), pos)
  }

  /** The definition as read, before fleece_goap_add_action looks at it. */
  function ReadActionDef(ieee: Ieee, b: seq<Byte>, pos: nat): Parse<Action>
  {
    var h := ReadArity(b, pos, 8);
    if h.Fail? then Fail else
    var id := ReadText(b, h.next);
    if id.Fail? then Fail else
    var name := ReadText(b, id.next);
    if name.Fail? then Fail else
    var cost := ReadText(b, name.next);
    if cost.Fail? then Fail else
    var dest := ReadText(b, cost.next);
    if dest.Fail? then Fail else
    var dur := ReadReal(ieee, b, dest.next);
    if dur.Fail? then Fail else
    var exec := ReadText(b, dur.next);
    if exec.Fail? then Fail else
    var pre := ReadTexts(b, exec.next);
    if !pre.ok then Fail else
    var eff := ReadTexts(b, pre.next);
    if !eff.ok then Fail else
    Ok(Action(id.val, name.val, cost.val, dest.val, dur.val, exec.val, pre.items, eff.items), eff.next)
  }

  function ReadAction(ieee: Ieee, b: seq<Byte>, pos: nat): Parse<Action>
  {
    var d := ReadActionDef(ieee, b, pos);
    if d.Fail? || !ActionFits(d.val) then Fail else d
  }

  /** The definition as read, before fleece_goap_add_goal looks at it. */
  function ReadGoalDef(ieee: Ieee, b: seq<Byte>, pos: nat): Parse<Goal>
  {
    var h := ReadArity(b, pos, 5);
    if h.Fail? then Fail else
    var id := ReadText(b, h.next);
    if id.Fail? then Fail else
    var name := ReadText(b, id.next);
    if name.Fail? then Fail else
    var expr := ReadText(b, name.next);
    if expr.Fail? then Fail else
    var priority := ReadReal(ieee, b, expr.next);
    if priority.Fail? then Fail else
    var curve := ReadText(b, priority.next);
    if curve.Fail? then Fail else
    Ok(Goal(id.val, name.val, expr.val, priority.val, curve.val), curve.next)
  }

  function ReadGoal(ieee: Ieee, b: seq<Byte>, pos: nat): Parse<Goal>
  {
    var d := ReadGoalDef(ieee, b, pos);
    if d.Fail? || !GoalFits(d.val) then Fail else d
  }

  function ReadPoint(ieee: Ieee, b: seq<Byte>, pos: nat): Parse<Point>
  {
    var h := ReadArity(b, pos, 2);
    if h.Fail? then Fail else
    var x := ReadReal(ieee, b, h.next);
    if x.Fail? then Fail else
    var y := ReadReal(ieee, b, x.next);
    if y.Fail? then Fail else
    Ok(Point(x.val, y.val), y.next)
  }

  function ReadPoints(ieee: Ieee, b: seq<Byte>, pos: nat): Many<Point>
  {
    ReadTable(b, (p: nat) => ReadPoint(ieee, b, p), pos)
  }

  /** A curve up to its points. */
  function ReadCurve(ieee: Ieee, b: seq<Byte>, pos: nat): Parse<Utility>
  {
    var h := ReadArity(b, pos, 7);
    if h.Fail? then Fail else
    var id := ReadText(b, h.next);
    if id.Fail? then Fail else
    var name := ReadText(b, id.next);
    if name.Fail? then Fail else
    var dim := ReadText(b, name.next);
    if dim.Fail? then Fail else
    var lo := ReadReal(ieee, b, dim.next);
    if lo.Fail? then Fail else
    var hi := ReadReal(ieee, b, lo.next);
    if hi.Fail? then Fail else
    Ok(Utility(id.val, name.val, dim.val, lo.val, hi.val, []), hi.next)
  }

  /** The definition as read, before fleece_goap_add_utility looks at it. */
  function ReadUtilityDef(ieee: Ieee, b: seq<Byte>, pos: nat): Parse<Utility>
  {
    var u := ReadCurve(ieee, b, pos);
    if u.Fail? then Fail else
    var pts := ReadPoints(ieee, b, u.next);
    if !pts.ok then Fail else
    Ok(u.val.(points := pts.items), pts.next)
  }

  function ReadUtility(ieee: Ieee, b: seq<Byte>, pos: nat): Parse<Utility>
  {
    var d := ReadUtilityDef(ieee, b, pos);
    if d.Fail? || !UtilityFits(d.val) then Fail else Ok(PointsSorted(d.val), d.next)
  }

  /** The definition as read, before fleece_goap_add_mission looks at it. */
  function ReadMissionDef(b: seq<Byte>, pos: nat): Parse<Mission>
  {
    var h := ReadArity(b, pos, 4);
    if h.Fail? then Fail else
    var id := ReadText(b, h.next);
    if id.Fail? then Fail else
    var name := ReadText(b, id.next);
    if name.Fail? then Fail else
    var goals := ReadTexts(b, name.next);
    if !goals.ok then Fail else
    var note := ReadText(b, goals.next);
    if note.Fail? then Fail else
    Ok(Mission(id.val, name.val, goals.items, note.val), note.next)
  }

  function ReadMission(b: seq<Byte>, pos: nat): Parse<Mission>
  {
    var d := ReadMissionDef(b, pos);
    if d.Fail? || !MissionFits(d.val) then Fail else d
  }

  function ReadActions(ieee: Ieee, b: seq<Byte>, pos: nat): Many<Action>
  {
    ReadTable(b, (p: nat) => ReadAction(ieee, b, p), pos)
  }

  function ReadGoals(ieee: Ieee, b: seq<Byte>, pos: nat): Many<Goal>
  {
    ReadTable(b, (p: nat) => ReadGoal(ieee, b, p), pos)
  }

  function ReadUtilities(ieee: Ieee, b: seq<Byte>, pos: nat): Many<Utility>
  {
    ReadTable(b, (p: nat) => ReadUtility(ieee, b, p), pos)
  }

  function ReadMissions(b: seq<Byte>, pos: nat): Many<Mission> { ReadTable(b, (p: nat) => ReadMission(b, p), pos) }

  const EMPTY: Goap := Goap([], [], [], [], [])

  /** What loading a blob leaves in the tables, and whether it reports success. */
  datatype Loaded = Loaded(tables: Goap, ok: bool)

  /** fleece_goap_deserialize. A bad prefix is refused before anything changes (None); a later
      failure keeps what was read up to it. Bytes behind the last mission are ignored. */
  function ReadBlob(ieee: Ieee, b: seq<Byte>): Option<Loaded>
  {
    if |b| < 3 || b[..3] != BLOB_MAGIC then None else
    var h := ReadArity(b, 3, 5);
    if h.Fail? then None else
    var name := ReadName(b, h.next);
    if name.Fail? then Some(Loaded(EMPTY, false)) else
    var actions := ReadActions(ieee, b, name.next);
    var g1 := EMPTY.(name := name.val, actions := actions.items);
    if !actions.ok then Some(Loaded(g1, false)) else
    var goals := ReadGoals(ieee, b, actions.next);
    var g2 := g1.(goals := goals.items);
    if !goals.ok then Some(Loaded(g2, false)) else
    var utilities := ReadUtilities(ieee, b, goals.next);
    var g3 := g2.(utilities := utilities.items);
    if !utilities.ok then Some(Loaded(g3, false)) else
    var missions := ReadMissions(b, utilities.next);
    Some(Loaded(g3.(missions := missions.items), missions.ok))
  }

  // ----- Round trips of the parts -------------------------------------------------------------------

  lemma TextRoundTrip(b: seq<Byte>, pos: nat, t: Text)
    requires TextOk(t) && At(b, pos, EncStr(t))
    ensures ReadText(b, pos) == Ok(t, pos + |EncStr(t)|)
  {
    hide At, ReadString;
    StringRoundTrip(b, pos, 3, t);
    CStringIdentity(t);
  }

  lemma NameRoundTrip(b: seq<Byte>, pos: nat, t: Text)
    requires TextOk(t) && Fits(t, ID_CAP) && At(b, pos, EncStr(t))
    ensures ReadName(b, pos) == Ok(t, pos + |EncStr(t)|)
  {
    hide At, ReadString;
    StringRoundTrip(b, pos, 3, t);
    CStringIdentity(t);
    assert |t| == ID_CAP ==> t[..ID_CAP] == t;
  }

  lemma CountRoundTrip(b: seq<Byte>, pos: nat, n: nat)
    requires n < TWO_64 && At(b, pos, EncCount(n))
    ensures ReadCount(b, pos) == Ok(n, pos + |EncCount(n)|)
  {
    hide At, ReadHead, EncHead;
    HeadRoundTrip(b, pos, 4, n);
  }

  lemma RealRoundTrip(ieee: Ieee, b: seq<Byte>, pos: nat, x: real)
    requires ieee.Exact(x) && At(b, pos, EncNum(ieee, x))
    ensures ReadReal(ieee, b, pos) == Ok(x, pos + |EncNum(ieee, x)|)
  {
    hide At, ReadNum, EncNum;
    NumRoundTrip(ieee, b, pos, x);
  }

  /** `read` undoes `enc` on `x`, wherever it stands in `b`. */
  ghost predicate Undoes<T(!new)>(b: seq<Byte>, enc: T -> seq<Byte>, read: nat -> Parse<T>, x: T)
  {
    forall pos: nat :: At(b, pos, enc(x)) ==> read(pos) == Ok(x, pos + |enc(x)|)
  }

  lemma {:induction false} EachFirst<T>(xs: seq<T>, enc: T -> seq<Byte>)
    requires xs != []
    ensures EncEach(xs, enc) == enc(xs[0]) + EncEach(xs[1..], enc)
  {
    var n := |xs| - 1;
    if n > 0 {
      EachFirst(xs[..n], enc);
      assert xs[..n][1..] == xs[1..][..n - 1];
    } else {
      assert EncEach(xs[..0], enc) == [] && EncEach(xs[1..], enc) == [];
    }
  }

  lemma {:induction false} ManyRoundTrip<T(!new)>(b: seq<Byte>, pos: nat, xs: seq<T>, enc: T -> seq<Byte>,
                                                  read: nat -> Parse<T>)
    requires forall i :: 0 <= i < |xs| ==> Undoes(b, enc, read, xs[i])
    requires At(b, pos, EncEach(xs, enc))
    ensures ReadMany(read, pos, |xs|) == Many(xs, pos + |EncEach(xs, enc)|, true)
    decreases |xs|
  {
    hide At;
    if xs != [] {
      EachFirst(xs, enc);
      AtConcat(b, pos, enc(xs[0]), EncEach(xs[1..], enc));
      assert Undoes(b, enc, read, xs[0]);
      ManyRoundTrip(b, pos + |enc(xs[0])|, xs[1..], enc, read);
      assert xs == [xs[0]] + xs[1..];
    }
  }

  lemma TableRoundTrip<T(!new)>(b: seq<Byte>, pos: nat, xs: seq<T>, enc: T -> seq<Byte>, read: nat -> Parse<T>)
    requires |xs| < TWO_32 && forall i :: 0 <= i < |xs| ==> Undoes(b, enc, read, xs[i])
    requires At(b, pos, EncList(xs, enc))
    ensures ReadTable(b, read, pos) == Many(xs, pos + |EncList(xs, enc)|, true)
  {
    hide At, EncCount, EncEach, ReadCount, ReadMany, Undoes;
    AtConcat(b, pos, EncCount(|xs|), EncEach(xs, enc));
    CountRoundTrip(b, pos, |xs|);
    ManyRoundTrip(b, pos + |EncCount(|xs|)|, xs, enc, read);
  }

  lemma TextsRoundTrip(b: seq<Byte>, pos: nat, ts: seq<Text>)
    requires TextsOk(ts) && At(b, pos, EncList(ts, EncStr))
    ensures ReadTexts(b, pos) == Many(ts, pos + |EncList(ts, EncStr)|, true)
  {
    hide At, EncList, EncStr, ReadText, TextOk, ReadTable;
    forall i | 0 <= i < |ts| ensures Undoes(b, EncStr, (p: nat) => ReadText(b, p), ts[i]) {
      forall p: nat | At(b, p, EncStr(ts[i])) ensures ReadText(b, p) == Ok(ts[i], p + |EncStr(ts[i])|) {
        TextRoundTrip(b, p, ts[i]);
      }
    }
    TableRoundTrip(b, pos, ts, EncStr, (p: nat) => ReadText(b, p));
  }

  // ----- Round trips of the entries -----------------------------------------------------------------

  lemma ActionRoundTrip(ieee: Ieee, b: seq<Byte>, pos: nat, a: Action)
    requires ActionOk(ieee, a) && ActionFits(a) && At(b, pos, EncAction(ieee, a))
    ensures ReadAction(ieee, b, pos) == Ok(a, pos + |EncAction(ieee, a)|)
  {
    hide At, EncArray, EncStr, EncNum, EncList, ReadCount, ReadText, ReadReal, ReadTexts, TextOk, TextsOk, ActionFits;
    var c1 := EncArray(8) + EncStr(a.id);
    var c2 := c1 + EncStr(a.name);
    var c3 := c2 + EncStr(a.cost);
    var c4 := c3 + EncStr(a.dest);
    var c5 := c4 + EncNum(ieee, a.dur);
    var c6 := c5 + EncStr(a.exec);
    var c7 := c6 + EncList(a.pre, EncStr);
    AtConcat(b, pos, c7, EncList(a.eff, EncStr));
    AtConcat(b, pos, c6, EncList(a.pre, EncStr));
    AtConcat(b, pos, c5, EncStr(a.exec));
    AtConcat(b, pos, c4, EncNum(ieee, a.dur));
    AtConcat(b, pos, c3, EncStr(a.dest));
    AtConcat(b, pos, c2, EncStr(a.cost));
    AtConcat(b, pos, c1, EncStr(a.name));
    AtConcat(b, pos, EncArray(8), EncStr(a.id));
    ArityRoundTrip(b, pos, 8);
    TextRoundTrip(b, pos + |EncArray(8)|, a.id);
    TextRoundTrip(b, pos + |c1|, a.name);
    TextRoundTrip(b, pos + |c2|, a.cost);
    TextRoundTrip(b, pos + |c3|, a.dest);
    RealRoundTrip(ieee, b, pos + |c4|, a.dur);
    TextRoundTrip(b, pos + |c5|, a.exec);
    TextsRoundTrip(b, pos + |c6|, a.pre);
    TextsRoundTrip(b, pos + |c7|, a.eff);
  }

  lemma ArityRoundTrip(b: seq<Byte>, pos: nat, n: nat)
    requires n < TWO_64 && At(b, pos, EncArray(n))
    ensures ReadArity(b, pos, n) == Ok(n, pos + |EncArray(n)|)
  {
    hide At, EncArray, ReadCount;
    CountRoundTrip(b, pos, n);
  }

  lemma GoalRoundTrip(ieee: Ieee, b: seq<Byte>, pos: nat, g: Goal)
    requires GoalOk(ieee, g) && GoalFits(g) && At(b, pos, EncGoal(ieee, g))
    ensures ReadGoal(ieee, b, pos) == Ok(g, pos + |EncGoal(ieee, g)|)
  {
    hide At, EncArray, EncStr, EncNum, ReadCount, ReadText, ReadReal, TextOk, GoalFits;
    var c1 := EncArray(5) + EncStr(g.id);
    var c2 := c1 + EncStr(g.name);
    var c3 := c2 + EncStr(g.expr);
    var c4 := c3 + EncNum(ieee, g.priority);
    AtConcat(b, pos, c4, EncStr(g.curve));
    AtConcat(b, pos, c3, EncNum(ieee, g.priority));
    AtConcat(b, pos, c2, EncStr(g.expr));
    AtConcat(b, pos, c1, EncStr(g.name));
    AtConcat(b, pos, EncArray(5), EncStr(g.id));
    ArityRoundTrip(b, pos, 5);
    TextRoundTrip(b, pos + |EncArray(5)|, g.id);
    TextRoundTrip(b, pos + |c1|, g.name);
    TextRoundTrip(b, pos + |c2|, g.expr);
    RealRoundTrip(ieee, b, pos + |c3|, g.priority);
    TextRoundTrip(b, pos + |c4|, g.curve);
  }

  lemma PointRoundTrip(ieee: Ieee, b: seq<Byte>, pos: nat, p: Point)
    requires PointOk(ieee, p) && At(b, pos, EncPoint(ieee, p))
    ensures ReadPoint(ieee, b, pos) == Ok(p, pos + |EncPoint(ieee, p)|)
  {
    hide At, EncArray, EncNum, ReadArity, ReadReal;
    AtConcat(b, pos, EncArray(2) + EncNum(ieee, p.x), EncNum(ieee, p.y));
    AtConcat(b, pos, EncArray(2), EncNum(ieee, p.x));
    ArityRoundTrip(b, pos, 2);
    RealRoundTrip(ieee, b, pos + |EncArray(2)|, p.x);
    RealRoundTrip(ieee, b, pos + |EncArray(2) + EncNum(ieee, p.x)|, p.y);
  }

  lemma PointsRoundTrip(ieee: Ieee, b: seq<Byte>, pos: nat, ps: seq<Point>)
    requires |ps| < TWO_32 && forall i :: 0 <= i < |ps| ==> PointOk(ieee, ps[i])
    requires At(b, pos, EncPoints(ieee, ps))
    ensures ReadPoints(ieee, b, pos) == Many(ps, pos + |EncPoints(ieee, ps)|, true)
  {
    hide At, EncList, EncPoint, ReadPoint, PointOk, ReadTable;
    var enc, read := (p: Point) => EncPoint(ieee, p), (p: nat) => ReadPoint(ieee, b, p);
    forall i | 0 <= i < |ps| ensures Undoes(b, enc, read, ps[i]) {
      forall p: nat | At(b, p, enc(ps[i])) ensures read(p) == Ok(ps[i], p + |enc(ps[i])|) {
        PointRoundTrip(ieee, b, p, ps[i]);
      }
    }
    TableRoundTrip(b, pos, ps, enc, read);
  }

  lemma UtilityRoundTrip(ieee: Ieee, b: seq<Byte>, pos: nat, u: Utility)
    requires UtilityOk(ieee, u) && UtilityFits(u) && InsertionSort.Sorted(u.points, Right())
    requires At(b, pos, EncUtility(ieee, u))
    ensures ReadUtility(ieee, b, pos) == Ok(u, pos + |EncUtility(ieee, u)|)
  {
    hide At, EncArray, EncStr, EncNum, EncPoints, ReadArity, ReadText, ReadReal, ReadPoints, TextOk, PointOk,
         UtilityFits, InsertionSort.Sort;
    var c1 := EncArray(7) + EncStr(u.id);
    var c2 := c1 + EncStr(u.name);
    var c3 := c2 + EncStr(u.dim);
    var c4 := c3 + EncNum(ieee, u.xMin);
    var c5 := c4 + EncNum(ieee, u.xMax);
    AtConcat(b, pos, c5, EncPoints(ieee, u.points));
    AtConcat(b, pos, c4, EncNum(ieee, u.xMax));
    AtConcat(b, pos, c3, EncNum(ieee, u.xMin));
    AtConcat(b, pos, c2, EncStr(u.dim));
    AtConcat(b, pos, c1, EncStr(u.name));
    AtConcat(b, pos, EncArray(7), EncStr(u.id));
    ArityRoundTrip(b, pos, 7);
    TextRoundTrip(b, pos + |EncArray(7)|, u.id);
    TextRoundTrip(b, pos + |c1|, u.name);
    TextRoundTrip(b, pos + |c2|, u.dim);
    RealRoundTrip(ieee, b, pos + |c3|, u.xMin);
    RealRoundTrip(ieee, b, pos + |c4|, u.xMax);
    PointsRoundTrip(ieee, b, pos + |c5|, u.points);
    InsertionSort.SortIdentity(u.points, Right());
  }

  lemma MissionRoundTrip(b: seq<Byte>, pos: nat, m: Mission)
    requires MissionOk(m) && MissionFits(m) && At(b, pos, EncMission(m))
    ensures ReadMission(b, pos) == Ok(m, pos + |EncMission(m)|)
  {
    hide At, EncArray, EncStr, EncList, ReadArity, ReadText, ReadTexts, TextOk, TextsOk, MissionFits;
    var c1 := EncArray(4) + EncStr(m.id);
    var c2 := c1 + EncStr(m.name);
    var c3 := c2 + EncList(m.goals, EncStr);
    AtConcat(b, pos, c3, EncStr(m.note));
    AtConcat(b, pos, c2, EncList(m.goals, EncStr));
    AtConcat(b, pos, c1, EncStr(m.name));
    AtConcat(b, pos, EncArray(4), EncStr(m.id));
    ArityRoundTrip(b, pos, 4);
    TextRoundTrip(b, pos + |EncArray(4)|, m.id);
    TextRoundTrip(b, pos + |c1|, m.name);
    TextsRoundTrip(b, pos + |c2|, m.goals);
    TextRoundTrip(b, pos + |c3|, m.note);
  }

  lemma ActionsRoundTrip(ieee: Ieee, b: seq<Byte>, pos: nat, xs: seq<Action>)
    requires |xs| < TWO_32
    requires forall i :: 0 <= i < |xs| ==> ActionOk(ieee, xs[i]) && ActionFits(xs[i])
    requires At(b, pos, EncActions(ieee, xs))
    ensures ReadActions(ieee, b, pos) == Many(xs, pos + |EncActions(ieee, xs)|, true)
  {
    hide At, EncList, EncAction, ReadAction, ActionOk, ActionFits, ReadTable;
    var enc, read := (x: Action) => EncAction(ieee, x), (p: nat) => ReadAction(ieee, b, p);
    forall i | 0 <= i < |xs| ensures Undoes(b, enc, read, xs[i]) {
      forall p: nat | At(b, p, enc(xs[i])) ensures read(p) == Ok(xs[i], p + |enc(xs[i])|) {
        ActionRoundTrip(ieee, b, p, xs[i]);
      }
    }
    TableRoundTrip(b, pos, xs, enc, read);
  }

  lemma GoalsRoundTrip(ieee: Ieee, b: seq<Byte>, pos: nat, xs: seq<Goal>)
    requires |xs| < TWO_32
    requires forall i :: 0 <= i < |xs| ==> GoalOk(ieee, xs[i]) && GoalFits(xs[i])
    requires At(b, pos, EncGoals(ieee, xs))
    ensures ReadGoals(ieee, b, pos) == Many(xs, pos + |EncGoals(ieee, xs)|, true)
  {
    hide At, EncList, EncGoal, ReadGoal, GoalOk, GoalFits, ReadTable;
    var enc, read := (x: Goal) => EncGoal(ieee, x), (p: nat) => ReadGoal(ieee, b, p);
    forall i | 0 <= i < |xs| ensures Undoes(b, enc, read, xs[i]) {
      forall p: nat | At(b, p, enc(xs[i])) ensures read(p) == Ok(xs[i], p + |enc(xs[i])|) {
        GoalRoundTrip(ieee, b, p, xs[i]);
      }
    }
    TableRoundTrip(b, pos, xs, enc, read);
  }

  lemma UtilitiesRoundTrip(ieee: Ieee, b: seq<Byte>, pos: nat, xs: seq<Utility>)
    requires |xs| < TWO_32
    requires forall i :: 0 <= i < |xs| ==>
               UtilityOk(ieee, xs[i]) && UtilityFits(xs[i]) && InsertionSort.Sorted(xs[i].points, Right())
    requires At(b, pos, EncUtilities(ieee, xs))
    ensures ReadUtilities(ieee, b, pos) == Many(xs, pos + |EncUtilities(ieee, xs)|, true)
  {
    hide At, EncList, EncUtility, ReadUtility, UtilityOk, UtilityFits, ReadTable, InsertionSort.Sorted;
    var enc, read := (x: Utility) => EncUtility(ieee, x), (p: nat) => ReadUtility(ieee, b, p);
    forall i | 0 <= i < |xs| ensures Undoes(b, enc, read, xs[i]) {
      forall p: nat | At(b, p, enc(xs[i])) ensures read(p) == Ok(xs[i], p + |enc(xs[i])|) {
        UtilityRoundTrip(ieee, b, p, xs[i]);
      }
    }
    TableRoundTrip(b, pos, xs, enc, read);
  }

  lemma MissionsRoundTrip(b: seq<Byte>, pos: nat, xs: seq<Mission>)
    requires |xs| < TWO_32
    requires forall i :: 0 <= i < |xs| ==> MissionOk(xs[i]) && MissionFits(xs[i])
    requires At(b, pos, EncMissions(xs))
    ensures ReadMissions(b, pos) == Many(xs, pos + |EncMissions(xs)|, true)
  {
    hide At, EncList, EncMission, ReadMission, MissionOk, MissionFits, ReadTable;
    var enc, read := EncMission, (p: nat) => ReadMission(b, p);
    forall i | 0 <= i < |xs| ensures Undoes(b, enc, read, xs[i]) {
      forall p: nat | At(b, p, enc(xs[i])) ensures read(p) == Ok(xs[i], p + |enc(xs[i])|) {
        MissionRoundTrip(b, p, xs[i]);
      }
    }
    TableRoundTrip(b, pos, xs, enc, read);
  }

  /** Loading a serialized planner rebuilds its name and all four tables, for every planner the
      add functions can have built. */
  lemma BlobRoundTrip(ieee: Ieee, g: Goap)
    requires GoapOk(ieee, g)
    ensures ReadBlob(ieee, EncBlob(ieee, g)) == Some(Loaded(g, true))
  {
    hide At, EncArray, EncStr, EncActions, EncGoals, EncUtilities, EncMissions, ReadArity, ReadName, ReadActions,
         ReadGoals, ReadUtilities, ReadMissions, TextOk, Fits, ActionOk, ActionFits, GoalOk, GoalFits, UtilityOk,
         UtilityFits, MissionOk, MissionFits, InsertionSort.Sorted;
    var b := EncBlob(ieee, g);
    BlobLayout(ieee, g);
    var c1 := EncArray(5) + EncStr(g.name);
    var c2 := c1 + EncActions(ieee, g.actions);
    var c3 := c2 + EncGoals(ieee, g.goals);
    var c4 := c3 + EncUtilities(ieee, g.utilities);
    AtConcat(b, 3, c4, EncMissions(g.missions));
    AtConcat(b, 3, c3, EncUtilities(ieee, g.utilities));
    AtConcat(b, 3, c2, EncGoals(ieee, g.goals));
    AtConcat(b, 3, c1, EncActions(ieee, g.actions));
    AtConcat(b, 3, EncArray(5), EncStr(g.name));
    ArityRoundTrip(b, 3, 5);
    NameRoundTrip(b, 3 + |EncArray(5)|, g.name);
    ActionsRoundTrip(ieee, b, 3 + |c1|, g.actions);
    GoalsRoundTrip(ieee, b, 3 + |c2|, g.goals);
    UtilitiesRoundTrip(ieee, b, 3 + |c3|, g.utilities);
    MissionsRoundTrip(b, 3 + |c4|, g.missions);
  }

  lemma BlobLayout(ieee: Ieee, g: Goap)
    ensures var b := EncBlob(ieee, g); |b| >= 3 && b[..3] == BLOB_MAGIC && At(b, 3, EncBody(ieee, g))
  {
    hide EncBody;
  }

  // ----- What any bytes load to -------------------------------------------------------------------

  /** `read` moves forward inside `b` and yields only `good` values. */
  ghost predicate Yields<T(!new)>(b: seq<Byte>, read: nat -> Parse<T>, good: T -> bool)
  {
    forall q: nat :: read(q).Ok? ==> q < read(q).next <= |b| && good(read(q).val)
  }

  lemma {:induction false} ManyYields<T(!new)>(b: seq<Byte>, read: nat -> Parse<T>, good: T -> bool, pos: nat, n: nat)
    requires Yields(b, read, good) && pos <= |b|
    ensures var m := ReadMany(read, pos, n);
            pos + |m.items| <= m.next <= |b| && forall i :: 0 <= i < |m.items| ==> good(m.items[i])
    decreases n
  {
    if n > 0 && read(pos).Ok? {
      ManyYields(b, read, good, read(pos).next, n - 1);
    }
  }

  lemma TableYields<T(!new)>(b: seq<Byte>, read: nat -> Parse<T>, good: T -> bool, pos: nat)
    requires Yields(b, read, good)
    ensures var m := ReadTable(b, read, pos);
            && |m.items| <= |b| && (forall i :: 0 <= i < |m.items| ==> good(m.items[i]))
            && (m.ok ==> pos < m.next <= |b|)
  {
    hide ReadHead, Yields;
    var c := ReadCount(b, pos);
    if c.Ok? {
      ManyYields(b, read, good, c.next, c.val);
    }
  }

  lemma TextYields(b: seq<Byte>, pos: nat)
    requires |b| < TWO_32 && ReadText(b, pos).Ok?
    ensures TextOk(ReadText(b, pos).val) && pos < ReadText(b, pos).next <= |b|
  {
    hide ReadString;
  }

  lemma TextsYield(b: seq<Byte>, pos: nat)
    requires |b| < TWO_32 && ReadTexts(b, pos).ok
    ensures TextsOk(ReadTexts(b, pos).items) && pos < ReadTexts(b, pos).next <= |b|
  {
    hide ReadTable, ReadText, TextOk;
    var read := (p: nat) => ReadText(b, p);
    forall q: nat | read(q).Ok? ensures q < read(q).next <= |b| && TextOk(read(q).val) {
      TextYields(b, q);
    }
    TableYields(b, read, TextOk, pos);
  }

  lemma RealYields(ieee: Ieee, b: seq<Byte>, pos: nat)
    requires ieee.Valid() && ReadReal(ieee, b, pos).Ok?
    ensures ieee.Exact(ReadReal(ieee, b, pos).val) && pos < ReadReal(ieee, b, pos).next <= |b|
  {
    hide ReadHead;
  }

  lemma ArityYields(b: seq<Byte>, pos: nat, n: nat)
    requires ReadArity(b, pos, n).Ok?
    ensures pos < ReadArity(b, pos, n).next <= |b|
  {
    hide ReadHead;
  }

  lemma ActionYields(ieee: Ieee, b: seq<Byte>, pos: nat)
    requires ieee.Valid() && |b| < TWO_32 && ReadActionDef(ieee, b, pos).Ok?
    ensures var r := ReadActionDef(ieee, b, pos); ActionOk(ieee, r.val) && pos < r.next <= |b|
  {
    hide ReadArity, ReadText, ReadReal, ReadTexts, TextOk, TextsOk;
    ArityYields(b, pos, 8);
    var id := ReadText(b, ReadArity(b, pos, 8).next);
    TextYields(b, ReadArity(b, pos, 8).next);
    var name := ReadText(b, id.next);
    TextYields(b, id.next);
    var cost := ReadText(b, name.next);
    TextYields(b, name.next);
    var dest := ReadText(b, cost.next);
    TextYields(b, cost.next);
    var dur := ReadReal(ieee, b, dest.next);
    RealYields(ieee, b, dest.next);
    var exec := ReadText(b, dur.next);
    TextYields(b, dur.next);
    TextsYield(b, exec.next);
    TextsYield(b, ReadTexts(b, exec.next).next);
  }

  lemma GoalYields(ieee: Ieee, b: seq<Byte>, pos: nat)
    requires ieee.Valid() && |b| < TWO_32 && ReadGoalDef(ieee, b, pos).Ok?
    ensures var r := ReadGoalDef(ieee, b, pos); GoalOk(ieee, r.val) && pos < r.next <= |b|
  {
    hide ReadArity, ReadText, ReadReal, TextOk;
    ArityYields(b, pos, 5);
    var id := ReadText(b, ReadArity(b, pos, 5).next);
    TextYields(b, ReadArity(b, pos, 5).next);
    var name := ReadText(b, id.next);
    TextYields(b, id.next);
    var expr := ReadText(b, name.next);
    TextYields(b, name.next);
    RealYields(ieee, b, expr.next);
    TextYields(b, ReadReal(ieee, b, expr.next).next);
  }

  lemma PointYields(ieee: Ieee, b: seq<Byte>, pos: nat)
    requires ieee.Valid() && ReadPoint(ieee, b, pos).Ok?
    ensures var r := ReadPoint(ieee, b, pos); PointOk(ieee, r.val) && pos < r.next <= |b|
  {
    hide ReadArity, ReadReal;
    ArityYields(b, pos, 2);
    RealYields(ieee, b, ReadArity(b, pos, 2).next);
    RealYields(ieee, b, ReadReal(ieee, b, ReadArity(b, pos, 2).next).next);
  }

  lemma CurveYields(ieee: Ieee, b: seq<Byte>, pos: nat)
    requires ieee.Valid() && |b| < TWO_32 && ReadCurve(ieee, b, pos).Ok?
    ensures var r := ReadCurve(ieee, b, pos); UtilityOk(ieee, r.val) && pos < r.next <= |b|
  {
    hide ReadArity, ReadText, ReadReal, TextOk;
    ArityYields(b, pos, 7);
    var id := ReadText(b, ReadArity(b, pos, 7).next);
    TextYields(b, ReadArity(b, pos, 7).next);
    var name := ReadText(b, id.next);
    TextYields(b, id.next);
    var dim := ReadText(b, name.next);
    TextYields(b, name.next);
    var lo := ReadReal(ieee, b, dim.next);
    RealYields(ieee, b, dim.next);
    RealYields(ieee, b, lo.next);
  }

  lemma PointsYield(ieee: Ieee, b: seq<Byte>, pos: nat)
    requires ieee.Valid() && |b| < TWO_32
    ensures var m := ReadPoints(ieee, b, pos);
            && |m.items| <= |b| && (forall i :: 0 <= i < |m.items| ==> PointOk(ieee, m.items[i]))
            && (m.ok ==> pos < m.next <= |b|)
  {
    hide ReadTable, PointOk, ReadPoint;
    var read := (p: nat) => ReadPoint(ieee, b, p);
    ghost var good := (x: Point) => PointOk(ieee, x);
    forall q: nat | read(q).Ok? ensures q < read(q).next <= |b| && good(read(q).val) {
      PointYields(ieee, b, q);
    }
    TableYields(b, read, good, pos);
  }

  lemma UtilityYields(ieee: Ieee, b: seq<Byte>, pos: nat)
    requires ieee.Valid() && |b| < TWO_32 && ReadUtilityDef(ieee, b, pos).Ok?
    ensures var r := ReadUtilityDef(ieee, b, pos); UtilityOk(ieee, r.val) && pos < r.next <= |b|
  {
    hide ReadCurve, ReadPoints, TextOk, PointOk, Ieee.Valid;
    CurveYields(ieee, b, pos);
    PointsYield(ieee, b, ReadCurve(ieee, b, pos).next);
  }

  lemma MissionYields(b: seq<Byte>, pos: nat)
    requires |b| < TWO_32 && ReadMissionDef(b, pos).Ok?
    ensures var r := ReadMissionDef(b, pos); MissionOk(r.val) && pos < r.next <= |b|
  {
    hide ReadArity, ReadText, ReadTexts, TextOk, TextsOk;
    ArityYields(b, pos, 4);
    var id := ReadText(b, ReadArity(b, pos, 4).next);
    TextYields(b, ReadArity(b, pos, 4).next);
    var name := ReadText(b, id.next);
    TextYields(b, id.next);
    TextsYield(b, name.next);
    TextYields(b, ReadTexts(b, name.next).next);
  }

  lemma NameYields(b: seq<Byte>, pos: nat)
    requires ReadName(b, pos).Ok?
    ensures TextOk(ReadName(b, pos).val) && Fits(ReadName(b, pos).val, ID_CAP)
  {
    hide ReadString;
  }

  lemma RightIsWeakOrder()
    ensures InsertionSort.WeakOrder(Right())
  {
  }

  /** Sorting keeps the points and puts them in ascending order of x. */
  lemma PointsSortedOk(ieee: Ieee, u: Utility)
    requires UtilityOk(ieee, u)
    ensures UtilityOk(ieee, PointsSorted(u))
    ensures multiset(PointsSorted(u).points) == multiset(u.points)
    ensures InsertionSort.Sorted(PointsSorted(u).points, Right())
  {
    hide InsertionSort.Sort, PointOk, TextOk, Right, InsertionSort.WeakOrder;
    RightIsWeakOrder();
    InsertionSort.SortIsStable(u.points, Right(), (p: Point, q: Point) => true);
    InsertionSort.SortMultiset(u.points, Right());
    InsertionSort.SortMembers(u.points, Right());
    var ps := PointsSorted(u).points;
    forall i | 0 <= i < |ps| ensures PointOk(ieee, ps[i]) {
      assert ps[i] in ps;
      assert ps[i] in u.points;
      var k :| 0 <= k < |u.points| && u.points[k] == ps[i];
    }
  }

  lemma ActionsYield(ieee: Ieee, b: seq<Byte>, pos: nat)
    requires ieee.Valid() && |b| < TWO_32
    ensures var m := ReadActions(ieee, b, pos);
            |m.items| < TWO_32 && forall i :: 0 <= i < |m.items| ==>
                ActionOk(ieee, m.items[i]) && ActionFits(m.items[i])
  {
    hide ReadTable, ReadActionDef, ActionOk, ActionFits;
    var read := (p: nat) => ReadAction(ieee, b, p);
    ghost var good := (x: Action) => ActionOk(ieee, x) && ActionFits(x);
    forall q: nat | read(q).Ok? ensures q < read(q).next <= |b| && good(read(q).val) {
      ActionYields(ieee, b, q);
    }
    TableYields(b, read, good, pos);
  }

  lemma GoalsYield(ieee: Ieee, b: seq<Byte>, pos: nat)
    requires ieee.Valid() && |b| < TWO_32
    ensures var m := ReadGoals(ieee, b, pos);
            |m.items| < TWO_32 && forall i :: 0 <= i < |m.items| ==> GoalOk(ieee, m.items[i]) && GoalFits(m.items[i])
  {
    hide ReadTable, ReadGoalDef, GoalOk, GoalFits;
    var read := (p: nat) => ReadGoal(ieee, b, p);
    ghost var good := (x: Goal) => GoalOk(ieee, x) && GoalFits(x);
    forall q: nat | read(q).Ok? ensures q < read(q).next <= |b| && good(read(q).val) {
      GoalYields(ieee, b, q);
    }
    TableYields(b, read, good, pos);
  }

  lemma UtilitiesYield(ieee: Ieee, b: seq<Byte>, pos: nat)
    requires ieee.Valid() && |b| < TWO_32
    ensures var m := ReadUtilities(ieee, b, pos);
            && |m.items| < TWO_32
            && forall i :: 0 <= i < |m.items| ==>
                 UtilityOk(ieee, m.items[i]) && UtilityFits(m.items[i])
                     && InsertionSort.Sorted(m.items[i].points, Right())
  {
    hide ReadTable, ReadUtilityDef, UtilityOk, Fits, InsertionSort.Sorted, InsertionSort.Sort, Right;
    var read := (p: nat) => ReadUtility(ieee, b, p);
    ghost var good := (x: Utility) => UtilityOk(ieee, x) && UtilityFits(x) && InsertionSort.Sorted(x.points, Right());
    forall q: nat | read(q).Ok? ensures q < read(q).next <= |b| && good(read(q).val) {
      UtilityYields(ieee, b, q);
      PointsSortedOk(ieee, ReadUtilityDef(ieee, b, q).val);
    }
    TableYields(b, read, good, pos);
  }

  lemma MissionsYield(b: seq<Byte>, pos: nat)
    requires |b| < TWO_32
    ensures var m := ReadMissions(b, pos);
            |m.items| < TWO_32 && forall i :: 0 <= i < |m.items| ==> MissionOk(m.items[i]) && MissionFits(m.items[i])
  {
    hide ReadTable, ReadMissionDef, MissionOk, MissionFits;
    var read := (p: nat) => ReadMission(b, p);
    ghost var good := (x: Mission) => MissionOk(x) && MissionFits(x);
    forall q: nat | read(q).Ok? ensures q < read(q).next <= |b| && good(read(q).val) {
      MissionYields(b, q);
    }
    TableYields(b, read, good, pos);
  }

  /** Whatever the bytes, what they load to is a planner the add functions could have built. */
  lemma LoadedOk(ieee: Ieee, b: seq<Byte>)
    requires ieee.Valid() && |b| < TWO_32 && ReadBlob(ieee, b).Some?
    ensures GoapOk(ieee, ReadBlob(ieee, b).value.tables)
  {
    hide ReadArity, ReadName, ReadActions, ReadGoals, ReadUtilities, ReadMissions, ActionOk, ActionFits, GoalOk,
         GoalFits, UtilityOk, UtilityFits, MissionOk, MissionFits, InsertionSort.Sorted, Right;
    var name := ReadName(b, ReadArity(b, 3, 5).next);
    if name.Ok? {
      NameYields(b, ReadArity(b, 3, 5).next);
      var actions := ReadActions(ieee, b, name.next);
      ActionsYield(ieee, b, name.next);
      var goals := ReadGoals(ieee, b, actions.next);
      GoalsYield(ieee, b, actions.next);
      var utilities := ReadUtilities(ieee, b, goals.next);
      UtilitiesYield(ieee, b, goals.next);
      MissionsYield(b, utilities.next);
    }
  }

  /** Saving and loading again changes nothing, whatever was loaded first. */
  lemma ReloadStable(ieee: Ieee, b: seq<Byte>)
    requires ieee.Valid() && |b| < TWO_32 && ReadBlob(ieee, b).Some?
    ensures var g := ReadBlob(ieee, b).value.tables; ReadBlob(ieee, EncBlob(ieee, g)) == Some(Loaded(g, true))
  {
    hide ReadBlob, EncBlob, GoapOk;
    LoadedOk(ieee, b);
    BlobRoundTrip(ieee, ReadBlob(ieee, b).value.tables);
  }

  // ----- Reading loops ----------------------------------------------------------------------------

  /** One turn of a reading loop: the next item moves from what is left to what is done. */
  lemma ManyNext<T>(read: nat -> Parse<T>, done: seq<T>, pos: nat, left: nat)
    requires left > 0
    ensures var m := ReadMany(read, pos, left);
      if read(pos).Fail? then m == Many([], pos, false) && done + m.items == done else
        var rest := ReadMany(read, read(pos).next, left - 1);
        Many(done + m.items, m.next, m.ok) == Many(done + [read(pos).val] + rest.items, rest.next, rest.ok)
  {
    if read(pos).Ok? {
      Assoc(done, [read(pos).val], ReadMany(read, read(pos).next, left - 1).items);
    }
  }

  lemma ManyDone<T>(read: nat -> Parse<T>, pos: nat)
    ensures ReadMany(read, pos, 0) == Many([], pos, true)
  {
  }
}
