/**
 * The path walk of Generator3D.GenerateSplinesNew, one layer at a time.
 *
 * A path leaves the start cell and advances one z layer per step. At each
 * layer it keeps its (x, y) column or moves one cell along x or y: in the
 * first half of the walk a random proposal, kept only when the end column
 * stays within reach; in the second half a greedy step to the axis
 * neighbour nearest the end column. Each step raises path counters on the
 * faces the path crosses (HopBumpsAsWritten), as the code is written.
 */
module Paths {
  import opened Directions
  import opened Wrappers
  import opened Grid

  /** An (x, y) column of the grid. */
  datatype Column = Column(x: int, y: int)

  predicate InPlane(dims: Dims, c: Column)
  {
    0 <= c.x < dims.x && 0 <= c.y < dims.y
  }

  function Abs(n: int): int
  {
    if n < 0 then -n else n
  }

  /** Squared distance between columns; it orders columns as the source's Vector2.Distance does. */
  function Dist2(a: Column, b: Column): int
  {
    (a.x - b.x) * (a.x - b.x) + (a.y - b.y) * (a.y - b.y)
  }

  function Clamp(v: int, lo: int, hi: int): int
  {
    if v < lo then lo else if v > hi then hi else v
  }

  /** The columns one step along x or y from c. */
  predicate AxisNeighbour(c: Column, n: Column)
  {
    (n.x == c.x && Abs(n.y - c.y) == 1) || (n.y == c.y && Abs(n.x - c.x) == 1)
  }

  // ------------------------------------------------------------ early phase

  /**
   * Whether a coordinate proposed in the first half of the walk is kept: it
   * is inside the grid and its distance to the end coordinate is less than
   * the number of layers left.
   */
  predicate EarlyAcceptable(v: int, dim: int, target: int, remaining: int)
  {
    0 <= v < dim && Abs(target - v) < remaining
  }

  /**
   * The retry loop of the first half on one axis. The distance used to
   * correct a rejected proposal is always 0 there, so every retry proposes
   * the current coordinate; after 100 failed retries the loop gives up and
   * keeps it anyway.
   */
  method EarlyAxisStep(current: int, proposal: int, dim: int, target: int, remaining: int) returns (next: int)
    ensures next == if EarlyAcceptable(proposal, dim, target, remaining) then proposal else current
  {
    var dist := 0;
    var temp := proposal;
    var whileBreaker := 0;
    while temp >= dim || temp < 0 || Abs(target - temp) >= remaining
      invariant 0 <= whileBreaker <= 100
      invariant whileBreaker == 0 ==> temp == proposal
      invariant whileBreaker > 0 ==> temp == current && !EarlyAcceptable(proposal, dim, target, remaining)
      decreases 100 - whileBreaker
    {
      whileBreaker := whileBreaker + 1;
      if whileBreaker > 100 {
        break;
      }
      temp := current + Clamp(dist, -1, 1);
    }
    next := temp;
  }

  /**
   * One first-half step: a random choice of axis and a random offset in
   * -1..1 on it, checked by EarlyAxisStep; the other coordinate is kept.
   */
  method EarlyStep(dims: Dims, cur: Column, alongX: bool, offset: int, end: Column, remaining: int)
    returns (next: Column)
    ensures alongX ==> (next.y == cur.y
      && next.x == if EarlyAcceptable(cur.x + offset, dims.x, end.x, remaining) then cur.x + offset else cur.x)
    ensures !alongX ==> (next.x == cur.x
      && next.y == if EarlyAcceptable(cur.y + offset, dims.y, end.y, remaining) then cur.y + offset else cur.y)
  {
    if alongX {
      var x := EarlyAxisStep(cur.x, cur.x + offset, dims.x, end.x, remaining);
      next := Column(x, cur.y);
    } else {
      var y := EarlyAxisStep(cur.y, cur.y + offset, dims.y, end.y, remaining);
      next := Column(cur.x, y);
    }
  }

  /** A first-half step stays in the grid, moves at most one cell along one axis, and a move keeps the end within reach. */
  lemma EarlyStepStaysNear(dims: Dims, cur: Column, next: Column, alongX: bool, offset: int, end: Column, remaining: int)
    requires InPlane(dims, cur) && -1 <= offset <= 1
    requires alongX ==> (next.y == cur.y
      && next.x == if EarlyAcceptable(cur.x + offset, dims.x, end.x, remaining) then cur.x + offset else cur.x)
    requires !alongX ==> (next.x == cur.x
      && next.y == if EarlyAcceptable(cur.y + offset, dims.y, end.y, remaining) then cur.y + offset else cur.y)
    ensures InPlane(dims, next)
    ensures next == cur || AxisNeighbour(cur, next)
    ensures next != cur && alongX ==> Abs(end.x - next.x) < remaining
    ensures next != cur && !alongX ==> Abs(end.y - next.y) < remaining
  {
  }

  // ------------------------------------------------------------- late phase

  /** The state of the late-phase scan: whether a candidate was found, its distance and the column chosen so far. */
  datatype ScanState = ScanState(found: bool, bestD: int, best: Column)

  /**
   * One candidate offset of the late-phase scan. Only axis offsets count;
   * the neighbour must be inside the grid and nearer the end than the
   * current column, and it replaces the choice so far only when strictly
   * nearer than it.
   */
  function Consider(s: ScanState, cur: Column, dx: int, dy: int, dims: Dims, end: Column): ScanState
  {
    if (dx == 0 && dy != 0) || (dy == 0 && dx != 0) then
      var n := Column(cur.x + dx, cur.y + dy);
      if InPlane(dims, n) && Dist2(cur, end) > Dist2(n, end) && (!s.found || Dist2(n, end) < s.bestD)
      then ScanState(true, Dist2(n, end), n)
      else s
    else s
  }

  /** The nine offsets of the scan in the order the double loop visits them: x major, y minor, each from -1 to 1. */
  const Offsets: seq<(int, int)> :=
    [(-1, -1), (-1, 0), (-1, 1), (0, -1), (0, 0), (0, 1), (1, -1), (1, 0), (1, 1)]

  /** The scan after the first t of the nine offsets. */
  function ScanUpTo(cur: Column, dims: Dims, end: Column, t: nat): ScanState
    requires t <= |Offsets|
  {
    if t == 0 then ScanState(false, 0, cur)
    else Consider(ScanUpTo(cur, dims, end, t - 1), cur, Offsets[t - 1].0, Offsets[t - 1].1, dims, end)
  }

  /** The column the second half moves to. */
  function GreedyStep(cur: Column, dims: Dims, end: Column): Column
  {
    ScanUpTo(cur, dims, end, |Offsets|).best
  }

  /** The second-half step: the nearest-to-the-end axis neighbour, scanned as the source's double loop does. */
  method LateStep(dims: Dims, cur: Column, end: Column) returns (next: Column)
    ensures next == GreedyStep(cur, dims, end)
  {
    var s := ScanState(false, 0, cur);
    var x := -1;
    while x <= 1
      invariant -1 <= x <= 2
      invariant s == ScanUpTo(cur, dims, end, 3 * (x + 1))
    {
      var y := -1;
      while y <= 1
        invariant -1 <= y <= 2
        invariant s == ScanUpTo(cur, dims, end, 3 * (x + 1) + (y + 1))
      {
        assert Offsets[3 * (x + 1) + (y + 1)] == (x, y);
        if (x == 0 && y != 0) || (y == 0 && x != 0) {
          var n := Column(cur.x + x, cur.y + y);
          if 0 <= n.x < dims.x && 0 <= n.y < dims.y && Dist2(cur, end) > Dist2(n, end) {
            var distanceToEnd := Dist2(n, end);
            if !s.found || distanceToEnd < s.bestD {
              s := ScanState(true, distanceToEnd, n);
            }
          }
        }
        y := y + 1;
      }
      x := x + 1;
    }
    next := s.best;
  }

  /** The scan's state names a neighbour inside the grid that is nearer the end, and the least of those seen. */
  lemma {:induction false} ScanInvariant(cur: Column, dims: Dims, end: Column, t: nat)
    requires t <= |Offsets|
    ensures var s := ScanUpTo(cur, dims, end, t);
      && (!s.found ==> s.best == cur)
      && (s.found ==> AxisNeighbour(cur, s.best) && InPlane(dims, s.best)
                      && s.bestD == Dist2(s.best, end) < Dist2(cur, end))
      && forall u :: 0 <= u < t ==>
           var n := Column(cur.x + Offsets[u].0, cur.y + Offsets[u].1);
           AxisNeighbour(cur, n) && InPlane(dims, n) && Dist2(n, end) < Dist2(cur, end)
           ==> s.found && s.bestD <= Dist2(n, end)
  {
    if t > 0 {
      ScanInvariant(cur, dims, end, t - 1);
    }
  }

  /**
   * The greedy step either stays or moves to an axis neighbour inside the
   * grid that is nearer the end, and no such neighbour is nearer than the
   * one chosen.
   */
  lemma GreedyStepIsNearest(cur: Column, dims: Dims, end: Column, n: Column)
    ensures var r := GreedyStep(cur, dims, end);
      r == cur || (AxisNeighbour(cur, r) && InPlane(dims, r) && Dist2(r, end) < Dist2(cur, end))
    ensures AxisNeighbour(cur, n) && InPlane(dims, n) && Dist2(n, end) < Dist2(cur, end)
      ==> Dist2(GreedyStep(cur, dims, end), end) <= Dist2(n, end)
  {
    ScanInvariant(cur, dims, end, |Offsets|);
    if AxisNeighbour(cur, n) {
      var u := 3 * (n.x - cur.x + 1) + (n.y - cur.y + 1);
      assert 0 <= u < 9 && Offsets[u] == (n.x - cur.x, n.y - cur.y);
    }
  }

  /** With the end inside the grid, the greedy step strictly nears the end until it is reached. */
  lemma GreedyStepProgress(cur: Column, dims: Dims, end: Column)
    requires InPlane(dims, cur) && InPlane(dims, end) && cur != end
    ensures Dist2(GreedyStep(cur, dims, end), end) < Dist2(cur, end)
  {
    var n := if cur.x < end.x then Column(cur.x + 1, cur.y)
      else if cur.x > end.x then Column(cur.x - 1, cur.y)
      else if cur.y < end.y then Column(cur.x, cur.y + 1)
      else Column(cur.x, cur.y - 1);
    assert Dist2(n, end) < Dist2(cur, end);
    GreedyStepIsNearest(cur, dims, end, n);
  }

  // ------------------------------------------------------------- face bumps

  /** The two cells a step touches: the old column at the new layer, and the new column there. */
  datatype Target = Mid | To

  /** The lateral direction of a step, if it moves. */
  function MoveOf(from: Column, to: Column): Option<Direction>
  {
    if to.x > from.x then Some(Right)
    else if to.x < from.x then Some(Left)
    else if to.y > from.y then Some(Up)
    else if to.y < from.y then Some(Down)
    else None
  }

  /**
   * The counter raises of one step, in the source's order, as the code is
   * written. A step that stays raises Back and Forward of its cell in the
   * first half but only Back in the second half; a move raises Back and the
   * exit face of the mid cell and the entry face and Forward of the new
   * cell, the entry face twice in the second half.
   */
  function HopBumpsAsWritten(late: bool, move: Option<Direction>): (r: seq<(Target, Direction)>)
    ensures 0 < |r| && r[0] == (if move.None? then To else Mid, Back)
    ensures (To, Forward) in r <==> !(late && move.None?)
  {
    match move
    case None => if late then [(To, Back)] else [(To, Back), (To, Forward)]
    case Some(d) =>
      if late then [(Mid, Back), (Mid, d), (To, d.Opposite()), (To, d.Opposite()), (To, Forward)]
      else [(Mid, Back), (Mid, d), (To, d.Opposite()), (To, Forward)]
  }

  /** The raises with the missing Forward of a second-half stay restored; everything else as written. */
  function HopBumps(late: bool, move: Option<Direction>): (r: seq<(Target, Direction)>)
    ensures (To, Forward) in r
    ensures !(late && move.None?) ==> r == HopBumpsAsWritten(late, move)
    ensures late && move.None? ==> r == HopBumpsAsWritten(late, move) + [(To, Forward)]
  {
    if late && move.None? then [(To, Back), (To, Forward)] else HopBumpsAsWritten(late, move)
  }

  /**
   * The faces a step must open for the path to be a connected pipe: the
   * back face of the cell it enters the layer through, the forward face of
   * the cell it leaves the layer from, and on a move the facing pair between
   * the mid cell and the new cell.
   */
  function PipeFaces(move: Option<Direction>): set<(Target, Direction)>
  {
    match move
    case None => {(To, Back), (To, Forward)}
    case Some(d) => {(Mid, Back), (Mid, d), (To, d.Opposite()), (To, Forward)}
  }

  function Elements<T>(s: seq<T>): set<T>
  {
    set k | 0 <= k < |s| :: s[k]
  }

  /**
   * The pipe faces the raises as written open: all of them, except the
   * forward face of a second-half step that stays.
   */
  function OpenedFaces(late: bool, move: Option<Direction>): set<(Target, Direction)>
  {
    PipeFaces(move) - (if late && move.None? then {(To, Forward)} else {})
  }

  /** As written, a step's raises open exactly the faces OpenedFaces names. */
  lemma HopBumpsAsWrittenOpens(late: bool, move: Option<Direction>)
    ensures Elements(HopBumpsAsWritten(late, move)) == OpenedFaces(late, move)
  {
    var b := HopBumpsAsWritten(late, move);
    match move
    case None =>
      assert b[0] == (To, Back);
      if !late {
        assert b[1] == (To, Forward);
      }
    case Some(d) =>
      assert b[0] == (Mid, Back) && b[1] == (Mid, d) && b[2] == (To, d.Opposite());
      assert b[|b| - 1] == (To, Forward);
  }

  /** In both halves, the corrected raises open exactly the pipe faces. */
  lemma HopBumpsOpenPipe(late: bool, move: Option<Direction>)
    ensures Elements(HopBumps(late, move)) == PipeFaces(move)
  {
    var b := HopBumps(late, move);
    match move
    case None =>
      assert b[0] == (To, Back) && b[1] == (To, Forward);
    case Some(d) =>
      assert b[0] == (Mid, Back) && b[1] == (Mid, d) && b[2] == (To, d.Opposite());
      assert b[|b| - 1] == (To, Forward);
  }

  /**
   * As written, a second-half step that stays leaves the forward face of its
   * cell closed, although the next layer's cell in front of it gets its back
   * face opened by the next step.
   */
  lemma LateStayMissesForward()
    ensures (To, Forward) in PipeFaces(None)
    ensures (To, Forward) !in Elements(HopBumpsAsWritten(true, None))
  {
    assert HopBumpsAsWritten(true, None) == [(To, Back)];
  }

  /** A step's move agrees with its columns: none when they are equal, otherwise the unit offset of the direction. */
  lemma MoveOfNeighbour(from: Column, to: Column)
    requires to == from || AxisNeighbour(from, to)
    ensures MoveOf(from, to).None? <==> to == from
    ensures MoveOf(from, to).Some? ==>
      var d := MoveOf(from, to).value;
      to.x == from.x + d.Dx() && to.y == from.y + d.Dy() && d.Dz() == 0
  {
  }

  // ------------------------------------------------------ raises on cells

  /** One counter raise: face d of the cell at a position. */
  type Raise = (Pos, Direction)

  /**
   * The cell a step target names. The mid knot sits at the old column plus
   * half the unit offset, truncated, which is the old column itself.
   */
  function Place(layer: int, from: Column, to: Column, t: Target): Pos
  {
    match t
    case Mid => Pos(from.x, from.y, layer)
    case To => Pos(to.x, to.y, layer)
  }

  /** The raises, as written, of the step from `from` to `to` into the given layer, on cells. */
  function HopRaises(layer: int, from: Column, to: Column, late: bool): (r: seq<Raise>)
    ensures |r| == |HopBumpsAsWritten(late, MoveOf(from, to))|
    ensures forall k :: 0 <= k < |r| ==>
      r[k] == (Place(layer, from, to, HopBumpsAsWritten(late, MoveOf(from, to))[k].0),
               HopBumpsAsWritten(late, MoveOf(from, to))[k].1)
  {
    var b := HopBumpsAsWritten(late, MoveOf(from, to));
    seq(|b|, k requires 0 <= k < |b| => (Place(layer, from, to, b[k].0), b[k].1))
  }

  /** In the first half, a step that stays raises Back and then Forward of its cell. */
  lemma HopRaisesStayEarly(layer: int, from: Column, to: Column)
    requires MoveOf(from, to) == None
    ensures var cur := Pos(to.x, to.y, layer);
      HopRaises(layer, from, to, false) == [] + [(cur, Back)] + [(cur, Forward)]
  {
  }

  /** In the second half, a step that stays raises Back of its cell and nothing else. */
  lemma HopRaisesStayLate(layer: int, from: Column, to: Column)
    requires MoveOf(from, to) == None
    ensures var cur := Pos(to.x, to.y, layer);
      HopRaises(layer, from, to, true) == [] + [(cur, Back)]
  {
  }

  /** The raises of a step that moves in direction d, one by one in the source's order. */
  lemma HopRaisesMove(layer: int, from: Column, to: Column, late: bool, d: Direction)
    requires MoveOf(from, to) == Some(d)
    ensures var mid, cur := Pos(from.x, from.y, layer), Pos(to.x, to.y, layer);
      var entered := [] + [(mid, Back)] + [(mid, d)] + [(cur, d.Opposite())];
      && (late ==> HopRaises(layer, from, to, late) == entered + [(cur, d.Opposite())] + [(cur, Forward)])
      && (!late ==> HopRaises(layer, from, to, late) == entered + [(cur, Forward)])
  {
  }

  /** How many of the raises hit face d of the cell at p. */
  function Tally(rs: seq<Raise>, p: Pos, d: Direction): nat
  {
    if rs == [] then 0
    else Tally(rs[..|rs| - 1], p, d) + (if rs[|rs| - 1] == (p, d) then 1 else 0)
  }

  lemma {:induction false} TallyAppend(a: seq<Raise>, b: seq<Raise>, p: Pos, d: Direction)
    ensures Tally(a + b, p, d) == Tally(a, p, d) + Tally(b, p, d)
  {
    if b != [] {
      var init := b[..|b| - 1];
      TallyAppend(a, init, p, d);
      assert (a + b)[..|a + b| - 1] == a + init;
    } else {
      assert a + b == a;
    }
  }

  /** A face is raised at least once exactly when a raise names it. */
  lemma {:induction false} TallyPositive(rs: seq<Raise>, p: Pos, d: Direction)
    ensures Tally(rs, p, d) > 0 <==> (p, d) in rs
  {
    if rs != [] {
      var init := rs[..|rs| - 1];
      TallyPositive(init, p, d);
      assert rs == init + [rs[|rs| - 1]];
    }
  }

  /** Whether a layer index j of a walk of zDist layers belongs to the second half. */
  predicate Late(j: int, zDist: int)
  {
    j > zDist / 2
  }

  /** The raises of a whole walk that starts at layer z0: step j enters layer z0 + j. */
  function RouteRaises(route: seq<Column>, z0: int, zDist: int): seq<Raise>
  {
    if |route| < 2 then []
    else
      var n := |route| - 1;
      RouteRaises(route[..n], z0, zDist) + HopRaises(z0 + n, route[n - 1], route[n], Late(n, zDist))
  }

  /** Extending a walk by one column extends its raises by that step's raises. */
  lemma RouteRaisesSnoc(route: seq<Column>, next: Column, z0: int, zDist: int)
    requires |route| >= 1
    ensures RouteRaises(route + [next], z0, zDist)
         == RouteRaises(route, z0, zDist) + HopRaises(z0 + |route|, route[|route| - 1], next, Late(|route|, zDist))
  {
    assert (route + [next])[..|route|] == route;
  }

  /** The raises of several walks, one after the other. */
  function AllRaises(routes: seq<seq<Column>>, z0: int, zDist: int): seq<Raise>
  {
    if routes == [] then []
    else AllRaises(routes[..|routes| - 1], z0, zDist) + RouteRaises(routes[|routes| - 1], z0, zDist)
  }

  /**
   * Step j of a walk towards `end`, j layers after the start and zDist - j
   * before the end: in the first half it stays or moves along one axis to a
   * coordinate still within reach of the end; in the second half it is the
   * greedy step.
   */
  ghost predicate WalkStep(dims: Dims, end: Column, from: Column, to: Column, j: int, zDist: int)
  {
    && InPlane(dims, to)
    && (Late(j, zDist) ==> to == GreedyStep(from, dims, end))
    && (!Late(j, zDist) ==>
          || to == from
          || (&& AxisNeighbour(from, to)
              && (to.x != from.x ==> Abs(end.x - to.x) < zDist - j)
              && (to.y != from.y ==> Abs(end.y - to.y) < zDist - j)))
  }

  /** The first columns of a walk from start towards end: the start column, then valid steps. */
  ghost predicate WalkPrefix(dims: Dims, start: Pos, end: Pos, route: seq<Column>)
  {
    && |route| >= 1
    && route[0] == Column(start.x, start.y)
    && forall j :: 1 <= j < |route| ==> WalkStep(dims, Column(end.x, end.y), route[j - 1], route[j], j, end.z - start.z)
  }

  /** A walk of the columns the path takes at layers start.z, start.z + 1, ..., end.z - 1. */
  ghost predicate Walk(dims: Dims, start: Pos, end: Pos, route: seq<Column>)
  {
    var zDist := end.z - start.z;
    |route| == (if zDist >= 1 then zDist else 1) && WalkPrefix(dims, start, end, route)
  }

  lemma WalkExtend(dims: Dims, start: Pos, end: Pos, route: seq<Column>, next: Column)
    requires WalkPrefix(dims, start, end, route)
    requires WalkStep(dims, Column(end.x, end.y), route[|route| - 1], next, |route|, end.z - start.z)
    ensures WalkPrefix(dims, start, end, route + [next])
  {
    var r := route + [next];
    forall j | 1 <= j < |r|
      ensures WalkStep(dims, Column(end.x, end.y), r[j - 1], r[j], j, end.z - start.z)
    {
      if j < |route| {
        assert r[j - 1] == route[j - 1] && r[j] == route[j];
      }
    }
  }

  /**
   * The column of step j of a walk from start to end, from the current
   * column: the greedy step in the second half, a random proposal on a
   * random axis in the first.
   */
  method NextColumn(dims: Dims, current: Column, start: Pos, end: Pos, j: int) returns (next: Column)
    requires InPlane(dims, current) && 1 <= j < end.z - start.z
    ensures WalkStep(dims, Column(end.x, end.y), current, next, j, end.z - start.z)
  {
    var zDist := end.z - start.z;
    var target := Column(end.x, end.y);
    if j > zDist / 2 {
      next := LateStep(dims, current, target);
      GreedyStepIsNearest(current, dims, target, current);
    } else {
      var alongX: bool :| true;
      var offset :| -1 <= offset <= 1;
      var remaining := Abs(end.z - (start.z + j));
      next := EarlyStep(dims, current, alongX, offset, target, remaining);
      EarlyStepStaysNear(dims, current, next, alongX, offset, target, remaining);
    }
  }

  /** A raise of a walk without its last column, or of its last step, is a raise of the walk. */
  lemma RouteRaisesGrow(route: seq<Column>, z0: int, zDist: int, x: Raise)
    requires |route| >= 2
    ensures x in RouteRaises(route[..|route| - 1], z0, zDist) ==> x in RouteRaises(route, z0, zDist)
    ensures var n := |route| - 1;
      x in HopRaises(z0 + n, route[n - 1], route[n], Late(n, zDist)) ==> x in RouteRaises(route, z0, zDist)
  {
  }

  /** Every face one step opens as written is among that step's raises. */
  lemma HopOpensPipe(layer: int, from: Column, to: Column, late: bool, t: Target, d: Direction)
    requires (t, d) in OpenedFaces(late, MoveOf(from, to))
    ensures (Place(layer, from, to, t), d) in HopRaises(layer, from, to, late)
  {
    var b := HopBumpsAsWritten(late, MoveOf(from, to));
    HopBumpsAsWrittenOpens(late, MoveOf(from, to));
    assert (t, d) in Elements(b);
    var k :| 0 <= k < |b| && b[k] == (t, d);
    assert HopRaises(layer, from, to, late)[k] == (Place(layer, from, to, t), d);
  }

  /**
   * Every face a step must open for the path to be a connected pipe is
   * raised by the walk, except the forward face of a second-half step that
   * stays.
   */
  lemma {:induction false} RouteOpensPipes(route: seq<Column>, z0: int, zDist: int, j: int, t: Target, d: Direction)
    requires 1 <= j < |route|
    requires (t, d) in OpenedFaces(Late(j, zDist), MoveOf(route[j - 1], route[j]))
    ensures (Place(z0 + j, route[j - 1], route[j], t), d) in RouteRaises(route, z0, zDist)
  {
    var n := |route| - 1;
    var init := route[..n];
    if j < n {
      assert init[j - 1] == route[j - 1] && init[j] == route[j];
      RouteOpensPipes(init, z0, zDist, j, t, d);
    } else {
      HopOpensPipe(z0 + n, route[n - 1], route[n], Late(n, zDist), t, d);
    }
    RouteRaisesGrow(route, z0, zDist, (Place(z0 + j, route[j - 1], route[j], t), d));
  }

  /**
   * Every pipe face of every walk, except the forward face of a second-half
   * step that stays, is raised by the walks together.
   */
  lemma {:induction false} AllOpenPipes(routes: seq<seq<Column>>, z0: int, zDist: int, i: int, j: int, t: Target, d: Direction)
    requires 0 <= i < |routes| && 1 <= j < |routes[i]|
    requires (t, d) in OpenedFaces(Late(j, zDist), MoveOf(routes[i][j - 1], routes[i][j]))
    ensures (Place(z0 + j, routes[i][j - 1], routes[i][j], t), d) in AllRaises(routes, z0, zDist)
  {
    var n := |routes| - 1;
    if i < n {
      AllOpenPipes(routes[..n], z0, zDist, i, j, t, d);
    } else {
      RouteOpensPipes(routes[n], z0, zDist, j, t, d);
    }
  }
}
