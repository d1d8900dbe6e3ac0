/**
 * The generator (Generator3D.cs): builds the cell grid, walks the paths
 * from the start tile to the end tile and raises the counters of the faces
 * they pass through, then collapses cells one at a time and propagates the
 * constraints after each collapse.
 *
 * Scene objects, waits, spline knots and tile colours are not modelled;
 * the random choices of the source are nondeterministic choices here.
 */
module Generation {
  import opened Directions
  import opened Wrappers
  import opened Grid
  import opened Tiles
  import opened Cells
  import opened Propagation
  import opened Paths

  /** How one run of Draw ends: every remaining cell decided, or a cell left with no option. */
  datatype Outcome = Finished | DeadEnd(index: int)

  /** The counters c of the cell at p after the raises rs. */
  function RaisedAt(c: Counters, p: Pos, rs: seq<Raise>): (r: Counters)
    ensures forall d: Direction :: PointsAt(r, d) == PointsAt(c, d) + Tally(rs, p, d)
  {
    DirectionFacts();
    seq(6, i requires 0 <= i < 6 => c[i] + Tally(rs, p, AllDirections[i]))
  }

  /** The counters of all cells, at positions ps, after the raises rs. */
  function RaisedAll(base: seq<Counters>, ps: seq<Pos>, rs: seq<Raise>): (r: seq<Counters>)
    requires |base| == |ps|
    ensures |r| == |base|
    ensures forall k :: 0 <= k < |r| ==> r[k] == RaisedAt(base[k], ps[k], rs)
  {
    seq(|base|, k requires 0 <= k < |base| => RaisedAt(base[k], ps[k], rs))
  }

  /** No raises change nothing. */
  lemma RaisedAllEmpty(base: seq<Counters>, ps: seq<Pos>)
    requires |base| == |ps|
    ensures RaisedAll(base, ps, []) == base
  {
    forall k | 0 <= k < |base|
      ensures RaisedAll(base, ps, [])[k] == base[k]
    {
      CountersExt(RaisedAt(base[k], ps[k], []), base[k]);
    }
  }

  /** Raising by a and then by b is raising by a followed by b. */
  lemma RaisedAllAppend(base: seq<Counters>, ps: seq<Pos>, a: seq<Raise>, b: seq<Raise>)
    requires |base| == |ps|
    ensures RaisedAll(RaisedAll(base, ps, a), ps, b) == RaisedAll(base, ps, a + b)
  {
    var mid := RaisedAll(base, ps, a);
    forall k | 0 <= k < |base|
      ensures RaisedAll(mid, ps, b)[k] == RaisedAll(base, ps, a + b)[k]
    {
      forall e: Direction
        ensures PointsAt(RaisedAt(mid[k], ps[k], b), e) == PointsAt(RaisedAt(base[k], ps[k], a + b), e)
      {
        TallyAppend(a, b, ps[k], e);
      }
      CountersExt(RaisedAt(mid[k], ps[k], b), RaisedAt(base[k], ps[k], a + b));
    }
  }

  /** One raise of face d at p, where exactly the entry `index` sits at p, bumps that entry alone. */
  lemma RaisedAllOne(base: seq<Counters>, ps: seq<Pos>, index: int, p: Pos, d: Direction)
    requires |base| == |ps| && 0 <= index < |base|
    requires forall j :: 0 <= j < |ps| ==> (ps[j] == p <==> j == index)
    ensures RaisedAll(base, ps, [(p, d)]) == base[index := Bump(base[index], d)]
  {
    forall k | 0 <= k < |base|
      ensures RaisedAll(base, ps, [(p, d)])[k] == base[index := Bump(base[index], d)][k]
    {
      forall e: Direction
        ensures PointsAt(RaisedAt(base[k], ps[k], [(p, d)]), e) == PointsAt(base[index := Bump(base[index], d)][k], e)
      {
        assert [(p, d)][..0] == [];
        assert Tally([(p, d)], ps[k], e) == if (ps[k], e) == (p, d) then 1 else 0;
        if k == index {
          assert PointsAt(base[index := Bump(base[index], d)][k], e) == PointsAt(Bump(base[k], d), e);
        }
      }
      CountersExt(RaisedAt(base[k], ps[k], [(p, d)]), base[index := Bump(base[index], d)][k]);
    }
  }

  /** Counters raised by a walk and then by one more step are raised by the longer walk. */
  lemma RaisedRouteStep(base: seq<Counters>, ps: seq<Pos>, route: seq<Column>, j: int, current: Column, next: Column,
                        z0: int, zDist: int, before: seq<Counters>, after: seq<Counters>)
    requires |base| == |ps| && |route| == j >= 1 && route[j - 1] == current
    requires before == RaisedAll(base, ps, RouteRaises(route, z0, zDist))
    requires after == RaisedAll(before, ps, HopRaises(z0 + j, current, next, Late(j, zDist)))
    ensures after == RaisedAll(base, ps, RouteRaises(route + [next], z0, zDist))
  {
    RaisedAllAppend(base, ps, RouteRaises(route, z0, zDist), HopRaises(z0 + j, current, next, Late(j, zDist)));
    RouteRaisesSnoc(route, next, z0, zDist);
  }

  /** Counters raised by some walks and then by one more are raised by all of them. */
  lemma RaisedRoutesStep(base: seq<Counters>, ps: seq<Pos>, routes: seq<seq<Column>>, route: seq<Column>,
                         z0: int, zDist: int, before: seq<Counters>, after: seq<Counters>)
    requires |base| == |ps|
    requires before == RaisedAll(base, ps, AllRaises(routes, z0, zDist))
    requires after == RaisedAll(before, ps, RouteRaises(route, z0, zDist))
    ensures after == RaisedAll(base, ps, AllRaises(routes + [route], z0, zDist))
  {
    RaisedAllAppend(base, ps, AllRaises(routes, z0, zDist), RouteRaises(route, z0, zDist));
    assert (routes + [route])[..|routes|] == routes;
  }

  /**
   * After the walks, every face a step must open to be part of a connected
   * pipe is open in the cell it belongs to (the counters of the cell at
   * that position are raised at least once on that face), except the
   * forward face of a second-half step that stays, which the code as
   * written never raises.
   */
  lemma PipeFacesOpen(base: seq<Counters>, ps: seq<Pos>, routes: seq<seq<Column>>, z0: int, zDist: int,
                      i: int, j: int, t: Target, d: Direction, k: int)
    requires |base| == |ps| && 0 <= k < |ps| && NonNegative(base[k])
    requires 0 <= i < |routes| && 1 <= j < |routes[i]|
    requires (t, d) in OpenedFaces(Late(j, zDist), MoveOf(routes[i][j - 1], routes[i][j]))
    requires ps[k] == Place(z0 + j, routes[i][j - 1], routes[i][j], t)
    ensures d in OpenSides(RaisedAll(base, ps, AllRaises(routes, z0, zDist))[k])
  {
    var rs := AllRaises(routes, z0, zDist);
    AllOpenPipes(routes, z0, zDist, i, j, t, d);
    TallyPositive(rs, ps[k], d);
    DirectionFacts();
    assert PointsAt(base[k], d) >= 0;
  }

  /** What a cell has decided: its collapsed flag, its tileOptions and its filteredOptions. */
  type Decision = (bool, seq<Tile3D>, seq<Tile3D>)

  /** From before to after, every collapsed cell stays collapsed and keeps its options. */
  predicate Keeps(before: seq<Decision>, after: seq<Decision>)
  {
    |after| == |before|
    && forall i :: 0 <= i < |before| && before[i].0 ==> after[i].0 && after[i].2 == before[i].2
  }

  lemma KeepsTransitive(a: seq<Decision>, b: seq<Decision>, c: seq<Decision>)
    requires Keeps(a, b) && Keeps(b, c)
    ensures Keeps(a, c)
  {
  }

  /** Collapsing an open cell keeps every decision and strictly shrinks the set of open cells. */
  lemma CollapseKeeps(ds: seq<Decision>, i: int, c: Decision)
    requires 0 <= i < |ds| && !ds[i].0 && c.0
    ensures Keeps(ds, ds[i := c])
    ensures UncollapsedIn(ds[i := c]) < UncollapsedIn(ds)
  {
    assert i in UncollapsedIn(ds);
  }

  /** A step that keeps every decision and collapses no cell keeps every cell pinned and the open set as it was. */
  lemma KeepsPinned(a: seq<Decision>, b: seq<Decision>)
    requires Keeps(a, b) && AllPinned(a)
    requires forall i :: 0 <= i < |a| ==> b[i].0 == a[i].0
    ensures AllPinned(b) && UncollapsedIn(b) == UncollapsedIn(a)
  {
  }

  /** Every collapsed cell among the decisions holds exactly one tile. */
  predicate AllPinned(ds: seq<Decision>)
  {
    forall i :: 0 <= i < |ds| && ds[i].0 ==> |ds[i].2| == 1
  }

  /** Pinning one more cell to a single tile keeps every collapsed cell pinned. */
  lemma PinOne(ds: seq<Decision>, i: int, options: seq<Tile3D>, t: Tile3D)
    requires AllPinned(ds) && 0 <= i < |ds|
    ensures AllPinned(ds[i := (true, options, [t])])
  {
  }

  /** The indices of the triples whose cell is not collapsed. */
  function UncollapsedIn(ds: seq<Decision>): set<int>
  {
    set i | 0 <= i < |ds| && !ds[i].0
  }

  /** Whether Draw may pick the cell: not collapsed, and some path runs through it. */
  predicate Selectable(c: CellView)
  {
    !c.collapsed && |OpenSides(c.points)| >= 1
  }

  /**
   * The cells Draw picks from: the grid with collapsed cells and cells no
   * path runs through removed, as indices in grid order.
   */
  function SelectionPool(v: seq<CellView>): (r: seq<int>)
    ensures forall k :: 0 <= k < |r| ==> 0 <= r[k] < |v| && Selectable(v[r[k]])
    ensures forall i :: 0 <= i < |v| && Selectable(v[i]) ==> i in r
    ensures forall a, b :: 0 <= a < b < |r| ==> r[a] < r[b]
  {
    if v == [] then []
    else
      var n := |v| - 1;
      SelectionPool(v[..n]) + (if Selectable(v[n]) then [n] else [])
  }

  /** The least number of options among the pooled cells. */
  function Fewest(v: seq<CellView>, pool: seq<int>): (m: int)
    requires pool != [] && forall k :: 0 <= k < |pool| ==> 0 <= pool[k] < |v|
    ensures forall k :: 0 <= k < |pool| ==> m <= |v[pool[k]].options|
    ensures exists k :: 0 <= k < |pool| && m == |v[pool[k]].options|
  {
    var last := |v[pool[|pool| - 1]].options|;
    if |pool| == 1 then last
    else
      var m := Fewest(v, pool[..|pool| - 1]);
      if m <= last then m else last
  }

  /** The pooled cells holding exactly m options, in pool order. */
  function Ties(v: seq<CellView>, pool: seq<int>, m: int): (r: seq<int>)
    requires forall k :: 0 <= k < |pool| ==> 0 <= pool[k] < |v|
    ensures forall i :: i in r ==> i in pool
    ensures forall k :: 0 <= k < |pool| ==> (pool[k] in r <==> |v[pool[k]].options| == m)
  {
    if pool == [] then []
    else
      var n := |pool| - 1;
      Ties(v, pool[..n], m) + (if |v[pool[n]].options| == m then [pool[n]] else [])
  }

  /**
   * What is left of the pool once it is sorted by option count and cut
   * after the last cell with the fewest options.
   */
  function Candidates(v: seq<CellView>, pool: seq<int>): (r: seq<int>)
    requires pool != [] && forall k :: 0 <= k < |pool| ==> 0 <= pool[k] < |v|
    ensures r != []
    ensures forall i :: i in r ==> i in pool
    ensures forall k :: 0 <= k < |pool| ==>
      (pool[k] in r <==> forall q :: 0 <= q < |pool| ==> |v[pool[k]].options| <= |v[pool[q]].options|)
  {
    var m := Fewest(v, pool);
    var r := Ties(v, pool, m);
    var k :| 0 <= k < |pool| && m == |v[pool[k]].options|;
    assert pool[k] in r;
    r
  }

  class Generator3D {
    const dims: Dims
    const minSplines: int
    const maxSplines: int
    const tileObjects: seq<Tile3D>
    const startTile: Option<Tile3D>
    const startLocation: Pos
    const endTile: Option<Tile3D>
    const endLocation: Pos

    var cellGrid: seq<Cell3D>
    var analyzeCount: int
    /** The position of the cell collapsed most recently. */
    var lastCollapsed: Pos

    /** Every tile a cell can hold: the tile list and the start and end tiles. */
    function KnownTiles(): seq<Tile3D>
    {
      tileObjects
      + (if startTile.Some? then [startTile.value] else [])
      + (if endTile.Some? then [endTile.value] else [])
    }

    /** What the inspector settings must satisfy for the generator to run. */
    ghost predicate Setup()
    {
      dims.Positive()
      && InBounds(dims, startLocation) && InBounds(dims, endLocation)
      && minSplines >= 0
      && forall t, s :: t in tileObjects && s in tileObjects && t != s ==> t.validNeighbours != s.validNeighbours
    }

    /** The adjacency lists are empty until the first analysis and complete after it. */
    ghost predicate AnalysisState()
      reads this, set t | t in tileObjects :: t.validNeighbours
      reads set t | t in tileObjects :: t.sides
    {
      analyzeCount >= 0
      && (analyzeCount < 1 ==> forall t :: t in tileObjects ==> t.validNeighbours.lists == NoLists)
      && (analyzeCount >= 1 ==> Analyzed(tileObjects))
    }

    /**
     * The grid holds one cell per position, the cell for position p at
     * FindGridIndex(p); counters are never negative and options are known tiles.
     */
    ghost predicate GridReady()
      reads this, cellGrid
    {
      |cellGrid| == dims.Count()
      && (forall i :: 0 <= i < |cellGrid| ==>
            InBounds(dims, cellGrid[i].pos) && FindGridIndex(dims, cellGrid[i].pos) == i)
      && (forall i :: 0 <= i < |cellGrid| ==> NonNegative(cellGrid[i].points))
      && (forall i, t :: 0 <= i < |cellGrid| && t in cellGrid[i].filteredOptions ==> t in KnownTiles())
    }

    /** Every collapsed cell holds exactly one tile. */
    ghost predicate Pinned()
      reads this, cellGrid
    {
      AllPinned(Decisions())
    }

    /** The indices of the cells not yet collapsed. */
    ghost function Uncollapsed(): set<int>
      reads this, cellGrid
    {
      UncollapsedIn(Decisions())
    }

    function ViewOf(c: Cell3D): CellView
      reads c
    {
      CellView(c.collapsed, c.filteredOptions, c.points, c.pos)
    }

    /** The state of the cells as values, in grid order. */
    function View(): (v: seq<CellView>)
      reads this, cellGrid
      ensures |v| == |cellGrid|
      ensures forall i :: 0 <= i < |v| ==> v[i] == ViewOf(cellGrid[i])
    {
      seq(|cellGrid|, i reads this, cellGrid requires 0 <= i < |cellGrid| => ViewOf(cellGrid[i]))
    }

    function AdjMap(): map<Tile3D, SixLists>
      reads set t | t in KnownTiles() :: t.validNeighbours
    {
      map t | t in KnownTiles() :: t.validNeighbours.lists
    }

    /** What the propagation sweep reads of the generator. */
    function Snapshot(): Config
      reads this, set t | t in KnownTiles() :: t.validNeighbours
    {
      Config(dims, tileObjects, AdjMap(), lastCollapsed)
    }

    ghost predicate Describes(cfg: Config)
      reads this, set t | t in KnownTiles() :: t.validNeighbours
    {
      cfg.dims == dims && cfg.tiles == tileObjects && cfg.last == lastCollapsed
      && forall t :: t in KnownTiles() ==> AdjAt(cfg, t) == t.validNeighbours.lists
    }

    /** Distinct indices hold distinct cells. */
    lemma CellsDistinct()
      requires GridReady()
      ensures forall i, j :: 0 <= i < |cellGrid| && 0 <= j < |cellGrid| && i != j ==> cellGrid[i] != cellGrid[j]
    {
    }

    // ---------------------------------------------------------- building the grid

    /** A cell as GenerateGridNew leaves it: open, holding every tile, with zero counters. */
    ghost predicate Blank(c: Cell3D)
      reads c
    {
      !c.collapsed && c.tileOptions == tileObjects && c.filteredOptions == tileObjects && c.points == Zeros
    }

    /** The cells are exactly n new cells, each at the position its index names. */
    ghost predicate BuiltUpTo(cells: seq<Cell3D>, n: int)
      reads cells
    {
      |cells| == n
      && forall i :: 0 <= i < n ==>
           InBounds(dims, cells[i].pos) && FindGridIndex(dims, cells[i].pos) == i && Blank(cells[i])
    }

    /**
     * One new cell: CreateCell(false, tileObjects) and ResetPoints, then the
     * engine's Start hook, which runs before the next frame.
     */
    method NewCell(p: Pos) returns (cell: Cell3D)
      ensures fresh(cell) && cell.pos == p && Blank(cell)
    {
      cell := new Cell3D(p);
      cell.CreateCell(false, tileObjects);
      cell.ResetPoints();
      cell.Start();
    }

    /** The cells (0, y, z) to (X-1, y, z), appended in order. */
    method AppendRow(cells: seq<Cell3D>, y: int, z: int) returns (grown: seq<Cell3D>)
      requires dims.Positive() && 0 <= y < dims.y && 0 <= z < dims.z
      requires BuiltUpTo(cells, FindGridIndex(dims, Pos(0, y, z)))
      ensures BuiltUpTo(grown, FindGridIndex(dims, Pos(0, y + 1, z)))
      ensures grown[..|cells|] == cells
      ensures forall i :: |cells| <= i < |grown| ==> fresh(grown[i])
    {
      ghost var row := FindGridIndex(dims, Pos(0, y, z));
      ScanOrder(dims, y, z);
      grown := cells;
      var x := 0;
      while x < dims.x
        invariant 0 <= x <= dims.x && BuiltUpTo(grown, row + x)
        invariant grown[..|cells|] == cells
        invariant forall i :: |cells| <= i < |grown| ==> fresh(grown[i])
      {
        var newCell := NewCell(Pos(x, y, z));
        assert FindGridIndex(dims, Pos(x, y, z)) == row + x;
        grown := grown + [newCell];
        x := x + 1;
      }
    }

    /**
     * Builds the grid: on the first call compiles the adjacency lists of the
     * tiles, then creates one new cell per position in z, y, x order.
     */
    method GenerateGridNew()
      requires Setup() && AnalysisState()
      modifies this, set t | t in tileObjects :: t.validNeighbours
      ensures GridReady() && Pinned()
      ensures forall i :: 0 <= i < |cellGrid| ==> fresh(cellGrid[i]) && Blank(cellGrid[i])
      ensures analyzeCount == if old(analyzeCount) < 1 then old(analyzeCount) + 1 else old(analyzeCount)
      ensures AnalysisState() && Analyzed(tileObjects)
      ensures lastCollapsed == old(lastCollapsed)
    {
      cellGrid := [];
      if analyzeCount < 1 {
        AnalyzeAll(tileObjects);
        analyzeCount := analyzeCount + 1;
      }
      var cells := BuildCells();
      cellGrid := cells;
      forall i | 0 <= i < |cellGrid|
        ensures NonNegative(cellGrid[i].points)
      {
        assert cellGrid[i].points == Zeros;
      }
    }

    /** The cell loops of GenerateGridNew: one new cell per position, in z, y, x order. */
    method BuildCells() returns (cells: seq<Cell3D>)
      requires dims.Positive()
      ensures BuiltUpTo(cells, dims.Count())
      ensures forall i :: 0 <= i < |cells| ==> fresh(cells[i])
    {
      cells := [];
      ScanOrder(dims, 0, 0);
      var z := 0;
      while z < dims.z
        invariant 0 <= z <= dims.z && BuiltUpTo(cells, FindGridIndex(dims, Pos(0, 0, z)))
        invariant forall i :: 0 <= i < |cells| ==> fresh(cells[i])
      {
        var y := 0;
        while y < dims.y
          invariant 0 <= y <= dims.y && BuiltUpTo(cells, FindGridIndex(dims, Pos(0, y, z)))
          invariant forall i :: 0 <= i < |cells| ==> fresh(cells[i])
        {
          cells := AppendRow(cells, y, z);
          y := y + 1;
        }
        ScanOrder(dims, y, z);
        z := z + 1;
      }
      ScanOrder(dims, 0, z);
    }

    // ------------------------------------------------------------ collapsing

    /** Collapses the cell at the index to the tile and records it as the last collapsed cell. */
    method CollapseTargetCell(targetTile: Tile3D, targetCellIndex: int)
      requires GridReady() && targetTile in KnownTiles()
      requires 0 <= targetCellIndex < |cellGrid|
      modifies this, cellGrid[targetCellIndex]
      ensures cellGrid == old(cellGrid) && analyzeCount == old(analyzeCount) && GridReady()
      ensures Points() == old(Points()) && Positions() == old(Positions())
      ensures Decisions() == old(Decisions())[targetCellIndex :=
        (true, old(cellGrid[targetCellIndex].tileOptions), [targetTile])]
      ensures lastCollapsed == cellGrid[targetCellIndex].pos
    {
      CellsDistinct();
      var targetCell := cellGrid[targetCellIndex];
      targetCell.collapsed := true;
      targetCell.filteredOptions := [targetTile];
      lastCollapsed := targetCell.pos;
    }

    // ----------------------------------------------------------- propagation

    /**
     * The tiles acceptable on side d of the cell at index: gathered from the
     * neighbour's options when the facing sides agree, or the blank fallback
     * at the border.
     */
    method ValidOptions(cfg: Config, index: int, d: Direction) returns (validOptions: seq<Tile3D>)
      requires GridReady() && Describes(cfg)
      requires 0 <= index < |cellGrid|
      ensures validOptions == ValidFor(cfg, View(), index, d)
    {
      var cell := cellGrid[index];
      validOptions := [];
      match NeighbourIndex(dims, cell.pos, d)
      case Some(j) =>
        IndexRoundTrip(dims, Step(cell.pos, d));
        var neighbour := cellGrid[j];
        var opts := neighbour.filteredOptions;
        ghost var agree := OpenSide(neighbour.points, d.Opposite()) == OpenSide(cell.points, d);
        var i := 0;
        while i < |opts|
          invariant 0 <= i <= |opts|
          invariant validOptions == if agree then Concat(cfg, opts[..i], d.Opposite()) else []
        {
          var option := opts[i];
          assert opts[..i + 1][..i] == opts[..i];
          if neighbour.GetOpenSides(d.Opposite()) == cell.GetOpenSides(d) {
            assert option in KnownTiles();
            validOptions := validOptions + ListAt(option.validNeighbours.lists, d.Opposite());
          }
          i := i + 1;
        }
        assert opts[..|opts|] == opts;
      case None =>
        validOptions := BlankFallback(cfg, cell.filteredOptions, d);
    }

    /** The new options of the cell at index: the tile list checked against all six sides. */
    method NewOptions(cfg: Config, index: int) returns (options: seq<Tile3D>)
      requires GridReady() && Describes(cfg)
      requires 0 <= index < |cellGrid|
      ensures options == Options(cfg, View(), index)
    {
      options := tileObjects;
      var k := 0;
      while k < 6
        invariant 0 <= k <= 6
        invariant options == OptionsUpTo(cfg, View(), index, k)
      {
        var validOptions := ValidOptions(cfg, index, AllDirections[k]);
        options := CheckValid(options, validOptions);
        k := k + 1;
      }
    }

    /** The sweep's visit of one cell, on the cell object. */
    method RecomputeCell(cfg: Config, index: int)
      requires GridReady() && Describes(cfg)
      requires 0 <= index < |cellGrid|
      modifies cellGrid[index]
      ensures View() == old(View())[index := Recompute(cfg, old(View()), index)]
      ensures GridReady()
    {
      var cell := cellGrid[index];
      if cell.collapsed || cell.SideCount() < 1 || FarFromLast(cell.pos, lastCollapsed) {
        return;
      }
      ghost var g := View();
      var options := NewOptions(cfg, index);
      forall u | u in options
        ensures u in KnownTiles()
      {
        OptionsMember(cfg, g, index, u);
      }
      assert g[index] == ViewOf(cell);
      assert !Skipped(cfg, g[index]);
      assert Recompute(cfg, g, index) == ViewOf(cell).(options := options);
      CellsDistinct();
      cell.filteredOptions := options;
      forall k | 0 <= k < |cellGrid|
        ensures View()[k] == g[index := ViewOf(cell)][k]
      {
      }
    }

    /** The sweep from g with its configuration cfg has visited the cells before n, and the grid is sound. */
    ghost predicate SweptTo(cfg: Config, g: seq<CellView>, n: int)
      reads this, cellGrid, set t | t in KnownTiles() :: t.validNeighbours
    {
      GridReady() && Describes(cfg) && 0 <= n <= |g| && View() == SweepTo(cfg, g, n)
    }

    /** The visit of cell index as the index-th step of the sweep from g. */
    method Visit(cfg: Config, index: int, ghost g: seq<CellView>)
      requires 0 <= index < |g| && SweptTo(cfg, g, index)
      modifies cellGrid[index]
      ensures SweptTo(cfg, g, index + 1)
    {
      RecomputeCell(cfg, index);
    }

    /**
     * One row of the propagation pass: the cells (0, y, z) to (X-1, y, z),
     * which hold the indices row to row + X - 1, in order.
     */
    method PropagateRow(cfg: Config, y: int, z: int, ghost row: nat, ghost g: seq<CellView>)
      requires dims.Positive() && 0 <= y < dims.y && 0 <= z < dims.z
      requires row == FindGridIndex(dims, Pos(0, y, z)) && row + dims.x <= |g|
      requires SweptTo(cfg, g, row)
      modifies cellGrid
      ensures SweptTo(cfg, g, row + dims.x)
    {
      var x := 0;
      while x < dims.x
        invariant 0 <= x <= dims.x
        invariant SweptTo(cfg, g, row + x)
      {
        var index := FindGridIndex(dims, Pos(x, y, z));
        IndexRoundTrip(dims, Pos(x, y, z));
        assert index == row + x;
        Visit(cfg, index, g);
        x := x + 1;
      }
    }

    /** One layer of the propagation pass: the rows y = 0 to Y-1 of layer z, in order. */
    method PropagateLayer(cfg: Config, z: int, ghost row: nat, ghost next: int, ghost g: seq<CellView>)
      requires dims.Positive() && 0 <= z < dims.z
      requires row == FindGridIndex(dims, Pos(0, 0, z)) && next == FindGridIndex(dims, Pos(0, 0, z + 1))
      requires next <= |g| && SweptTo(cfg, g, row)
      modifies cellGrid
      ensures SweptTo(cfg, g, next)
    {
      ghost var r := row;
      var y := 0;
      while y < dims.y
        invariant 0 <= y <= dims.y
        invariant r == FindGridIndex(dims, Pos(0, y, z))
        invariant SweptTo(cfg, g, r)
      {
        RowSpan(dims, y, z);
        PropagateRow(cfg, y, z, r, g);
        r := r + dims.x;
        y := y + 1;
      }
      ScanOrder(dims, y, z);
      assert r == next;
    }

    /**
     * The propagation pass of Draw: visits every cell in z, y, x order,
     * which is index order, updating each in place.
     */
    method Propagate()
      requires Setup() && GridReady()
      modifies cellGrid
      ensures View() == Sweep(Snapshot(), old(View()))
      ensures GridReady()
    {
      var cfg := Snapshot();
      ghost var g := View();
      PropagateLayers(cfg, g);
    }

    /** The layers z = 0 to Z-1 of the propagation pass, in order. */
    method PropagateLayers(cfg: Config, ghost g: seq<CellView>)
      requires dims.Positive() && |g| == dims.Count() && SweptTo(cfg, g, 0)
      modifies cellGrid
      ensures SweptTo(cfg, g, |g|)
    {
      ghost var row: nat := 0;
      ScanOrder(dims, 0, 0);
      var z := 0;
      while z < dims.z
        invariant 0 <= z <= dims.z
        invariant row == FindGridIndex(dims, Pos(0, 0, z))
        invariant SweptTo(cfg, g, row)
      {
        ghost var next := FindGridIndex(dims, Pos(0, 0, z + 1));
        LayerSpan(dims, z);
        PropagateLayer(cfg, z, row, next, g);
        row := next;
        z := z + 1;
      }
      ScanOrder(dims, 0, z);
    }

    // ------------------------------------------------------------------ drawing

    /** The random pick among the candidates: an open cell with the fewest options. */
    method PickCell(v: seq<CellView>, pool: seq<int>) returns (index: int)
      requires pool != [] && forall k :: 0 <= k < |pool| ==> 0 <= pool[k] < |v|
      ensures index in pool
      ensures forall k :: 0 <= k < |pool| ==> |v[index].options| <= |v[pool[k]].options|
    {
      var candidates := Candidates(v, pool);
      var randCell :| 0 <= randCell < |candidates|;
      index := candidates[randCell];
      assert index in candidates;
      var k :| 0 <= k < |pool| && pool[k] == index;
    }

    /**
     * The forced first step of Draw: collapses the start cell to the start
     * tile and opens its forward face, then collapses the end cell to the
     * end tile and opens its back face.
     */
    method PlaceEnds(s: int, e: int)
      requires Setup() && GridReady() && Pinned()
      requires startTile.Some? && endTile.Some?
      requires s == FindGridIndex(dims, startLocation) && e == FindGridIndex(dims, endLocation)
      requires 0 <= s < |cellGrid| && 0 <= e < |cellGrid|
      modifies this, cellGrid
      ensures cellGrid == old(cellGrid) && analyzeCount == old(analyzeCount)
      ensures GridReady() && Pinned()
      ensures lastCollapsed == endLocation
      ensures Points() == RaisedAll(old(Points()), Positions(), [(startLocation, Forward), (endLocation, Back)])
      ensures var ds := old(Decisions());
        Decisions() == ds[s := (true, ds[s].1, [startTile.value])][e := (true, ds[e].1, [endTile.value])]
    {
      ghost var base := Points();
      ghost var ds := Decisions();
      CollapseTargetCell(startTile.value, s);
      ghost var ds1 := Decisions();
      PinOne(ds, s, ds[s].1, startTile.value);
      RaisedAllEmpty(base, Positions());
      RaiseThen(startLocation, Forward, base, []);
      assert [] + [(startLocation, Forward)] == [(startLocation, Forward)];
      CollapseTargetCell(endTile.value, e);
      PinOne(ds1, e, ds1[e].1, endTile.value);
      RaiseThen(endLocation, Back, base, [(startLocation, Forward)]);
      assert [(startLocation, Forward)] + [(endLocation, Back)] == [(startLocation, Forward), (endLocation, Back)];
      IndexInjective(dims, cellGrid[e].pos, endLocation);
    }

    /**
     * The ordinary step of Draw: collapses the chosen cell and, when it has
     * options left, pins it to one of them. None when it had none.
     */
    method CollapseChosen(index: int) returns (chosen: Option<Tile3D>)
      requires GridReady() && 0 <= index < |cellGrid|
      modifies this, cellGrid[index]
      ensures cellGrid == old(cellGrid) && analyzeCount == old(analyzeCount) && GridReady()
      ensures Points() == old(Points())
      ensures var ds := old(Decisions());
        && (chosen.None? <==> ds[index].2 == [])
        && (chosen.None? ==> Decisions() == ds[index := (true, ds[index].1, [])])
        && (chosen.Some? ==>
              && chosen.value in ds[index].2
              && Decisions() == ds[index := (true, [chosen.value], [chosen.value])]
              && lastCollapsed == cellGrid[index].pos)
    {
      CellsDistinct();
      var selectedCell := cellGrid[index];
      selectedCell.collapsed := true;
      if selectedCell.filteredOptions == [] {
        return None;
      }
      var pick :| 0 <= pick < |selectedCell.filteredOptions|;
      var chosenTile := selectedCell.filteredOptions[pick];
      selectedCell.tileOptions := [chosenTile];
      IndexRoundTrip(dims, selectedCell.pos);
      CollapseTargetCell(chosenTile, FindGridIndex(dims, selectedCell.pos));
      chosen := Some(chosenTile);
    }

    /**
     * The propagation pass as the collapse loop relies on it: it keeps every
     * collapsed flag and counter, and every collapsed cell keeps its options.
     */
    method Settle()
      requires Setup() && GridReady() && Pinned()
      modifies cellGrid
      ensures unchanged(this)
      ensures GridReady() && Pinned() && Points() == old(Points())
      ensures Keeps(old(Decisions()), Decisions()) && Uncollapsed() == old(Uncollapsed())
    {
      ghost var g := View();
      ghost var before := Decisions();
      Propagate();
      SweepKeeps(Snapshot(), g, |g|);
      assert forall i :: 0 <= i < |cellGrid| ==> Decisions()[i].0 == before[i].0;
      KeepsPinned(before, Decisions());
    }

    /** The forced first collapse of Draw, as a step that keeps every decision and closes the start cell. */
    method CollapseEnds(s: int, e: int)
      requires Setup() && GridReady() && Pinned()
      requires startTile.Some? && endTile.Some?
      requires s == FindGridIndex(dims, startLocation) && e == FindGridIndex(dims, endLocation)
      requires 0 <= s < |cellGrid| && 0 <= e < |cellGrid|
      requires !cellGrid[s].collapsed && !cellGrid[e].collapsed
      modifies this, cellGrid
      ensures cellGrid == old(cellGrid) && analyzeCount == old(analyzeCount) && GridReady() && Pinned()
      ensures Keeps(old(Decisions()), Decisions()) && Uncollapsed() < old(Uncollapsed())
    {
      ghost var before := Decisions();
      PlaceEnds(s, e);
      var a: Decision := (true, before[s].1, [startTile.value]);
      var b: Decision := (true, before[e].1, [endTile.value]);
      CollapseKeeps(before, s, a);
      if s == e {
        assert before[s := a][e := b] == before[e := b];
        CollapseKeeps(before, e, b);
      } else {
        CollapseKeeps(before[s := a], e, b);
        KeepsTransitive(before, before[s := a], before[s := a][e := b]);
      }
    }

    /**
     * The ordinary collapse of Draw: a cell with the fewest options among
     * the pool. Some(index) when that cell had no option left.
     */
    method CollapseFewest(v: seq<CellView>, pool: seq<int>) returns (deadEnd: Option<int>)
      requires GridReady() && Pinned()
      requires v == View() && pool == SelectionPool(v) && pool != []
      modifies this, cellGrid
      ensures cellGrid == old(cellGrid) && analyzeCount == old(analyzeCount) && GridReady()
      ensures Keeps(old(Decisions()), Decisions())
      ensures deadEnd.Some? ==>
        var i := deadEnd.value;
        0 <= i < |cellGrid| && !old(Decisions())[i].0 && Decisions()[i].0 && Decisions()[i].2 == []
      ensures deadEnd.None? ==> Pinned() && Uncollapsed() < old(Uncollapsed())
    {
      ghost var before := Decisions();
      var index := PickCell(v, pool);
      assert !before[index].0;
      var chosen := CollapseChosen(index);
      if chosen.None? {
        CollapseKeeps(before, index, (true, before[index].1, []));
        return Some(index);
      }
      PinOne(before, index, [chosen.value], chosen.value);
      CollapseKeeps(before, index, (true, [chosen.value], [chosen.value]));
      deadEnd := None;
    }

    /**
     * Collapses cells until none is left open with a path through it:
     * first the start and end cells, then each time a cell with the fewest
     * options, propagating the constraints after every collapse. Stops at
     * the first cell found with no option left.
     */
    method Draw() returns (outcome: Outcome)
      requires Setup() && GridReady() && Pinned()
      modifies this, cellGrid
      ensures cellGrid == old(cellGrid) && analyzeCount == old(analyzeCount) && GridReady()
      ensures Keeps(old(Decisions()), Decisions())
      ensures outcome == Finished ==>
        Pinned() && forall i :: 0 <= i < |cellGrid| ==> cellGrid[i].collapsed || cellGrid[i].SideCount() < 1
      ensures outcome.DeadEnd? ==>
        var i := outcome.index;
        0 <= i < |cellGrid| && !old(Decisions())[i].0 && Decisions()[i].0 && Decisions()[i].2 == []
    {
      var s := FindGridIndex(dims, startLocation);
      var e := FindGridIndex(dims, endLocation);
      IndexRoundTrip(dims, startLocation);
      IndexRoundTrip(dims, endLocation);
      ghost var d0 := Decisions();
      while true
        invariant cellGrid == old(cellGrid) && analyzeCount == old(analyzeCount)
        invariant GridReady() && Pinned() && Keeps(d0, Decisions())
        decreases Uncollapsed()
      {
        var v := View();
        var pool := SelectionPool(v);
        if pool == [] {
          forall i | 0 <= i < |cellGrid|
            ensures cellGrid[i].collapsed || cellGrid[i].SideCount() < 1
          {
            assert !Selectable(v[i]);
          }
          return Finished;
        }
        ghost var before := Decisions();
        if startTile.Some? && endTile.Some? && !cellGrid[s].collapsed && !cellGrid[e].collapsed {
          CollapseEnds(s, e);
        } else {
          var deadEnd := CollapseFewest(v, pool);
          if deadEnd.Some? {
            KeepsTransitive(d0, before, Decisions());
            return DeadEnd(deadEnd.value);
          }
        }
        KeepsTransitive(d0, before, Decisions());
        ghost var mid := Decisions();
        Settle();
        KeepsTransitive(d0, mid, Decisions());
      }
    }

    /** The second and third phases of an attempt on a built grid: walk the paths, then draw. */
    method PathsThenDraw() returns (outcome: Outcome, ghost routes: seq<seq<Column>>)
      requires Setup() && GridReady()
      requires forall i :: 0 <= i < |cellGrid| ==> !cellGrid[i].collapsed
      modifies this, cellGrid
      ensures cellGrid == old(cellGrid) && analyzeCount == old(analyzeCount) && GridReady()
      ensures forall i :: 0 <= i < |routes| ==> Walk(dims, startLocation, endLocation, routes[i])
      ensures minSplines <= maxSplines ==> minSplines <= |routes| <= maxSplines
      ensures outcome == Finished ==>
        Pinned() && forall i :: 0 <= i < |cellGrid| ==> cellGrid[i].collapsed || cellGrid[i].SideCount() < 1
      ensures outcome.DeadEnd? ==>
        0 <= outcome.index < |cellGrid| && cellGrid[outcome.index].collapsed && cellGrid[outcome.index].filteredOptions == []
    {
      routes := GenerateSplinesNew();
      assert Pinned();
      outcome := Draw();
    }

    /**
     * One generation attempt: build the grid, walk the paths, then draw.
     * A dead end ends the attempt; the restart is not modelled.
     */
    method GenerationProcess() returns (outcome: Outcome, ghost routes: seq<seq<Column>>)
      requires Setup() && AnalysisState()
      modifies this, set t | t in tileObjects :: t.validNeighbours
      ensures GridReady() && analyzeCount >= 1 && AnalysisState()
      ensures forall i :: 0 <= i < |routes| ==> Walk(dims, startLocation, endLocation, routes[i])
      ensures minSplines <= maxSplines ==> minSplines <= |routes| <= maxSplines
      ensures outcome == Finished ==>
        Pinned() && forall i :: 0 <= i < |cellGrid| ==> cellGrid[i].collapsed || cellGrid[i].SideCount() < 1
      ensures outcome.DeadEnd? ==>
        0 <= outcome.index < |cellGrid| && cellGrid[outcome.index].collapsed && cellGrid[outcome.index].filteredOptions == []
    {
      GenerateGridNew();
      outcome, routes := PathsThenDraw();
    }

    // ----------------------------------------------------------------- paths

    /** The counters of the cells, in grid order. */
    ghost function Points(): (ps: seq<Counters>)
      reads this, cellGrid
      ensures |ps| == |cellGrid|
      ensures forall k :: 0 <= k < |ps| ==> ps[k] == cellGrid[k].points
    {
      seq(|cellGrid|, k reads this, cellGrid requires 0 <= k < |cellGrid| => cellGrid[k].points)
    }

    /** What the path phase leaves alone in every cell: the collapsed flag and both option lists. */
    ghost function Decisions(): (ds: seq<Decision>)
      reads this, cellGrid
      ensures |ds| == |cellGrid|
      ensures forall k :: 0 <= k < |ds| ==>
        ds[k] == (cellGrid[k].collapsed, cellGrid[k].tileOptions, cellGrid[k].filteredOptions)
    {
      seq(|cellGrid|, k reads this, cellGrid requires 0 <= k < |cellGrid| =>
        (cellGrid[k].collapsed, cellGrid[k].tileOptions, cellGrid[k].filteredOptions))
    }

    /** The positions of the cells, in grid order. */
    ghost function Positions(): (ps: seq<Pos>)
      reads this
      ensures |ps| == |cellGrid|
      ensures forall k :: 0 <= k < |ps| ==> ps[k] == cellGrid[k].pos
    {
      seq(|cellGrid|, k reads this requires 0 <= k < |cellGrid| => cellGrid[k].pos)
    }

    /** IncreasePoints on face d of the cell at position p. */
    method Raise(p: Pos, d: Direction)
      requires GridReady() && InBounds(dims, p)
      modifies cellGrid
      ensures GridReady() && Points() == RaisedAll(old(Points()), Positions(), [(p, d)])
      ensures Decisions() == old(Decisions())
    {
      var index := FindGridIndex(dims, p);
      IndexRoundTrip(dims, p);
      CellsDistinct();
      ghost var before := Points();
      ghost var ps := Positions();
      var cell := cellGrid[index];
      cell.IncreasePoints(d);
      forall j | 0 <= j < |ps|
        ensures ps[j] == p <==> j == index
      {
        IndexInjective(dims, p, ps[j]);
      }
      assert Points() == before[index := Bump(before[index], d)];
      RaisedAllOne(before, ps, index, p, d);
    }

    /** IncreasePoints on face d of the cell at p, after the raises acc since base. */
    method RaiseThen(p: Pos, d: Direction, ghost base: seq<Counters>, ghost acc: seq<Raise>)
      requires GridReady() && InBounds(dims, p)
      requires |base| == |cellGrid| && Points() == RaisedAll(base, Positions(), acc)
      modifies cellGrid
      ensures GridReady() && Points() == RaisedAll(base, Positions(), acc + [(p, d)])
      ensures Decisions() == old(Decisions())
    {
      Raise(p, d);
      RaisedAllAppend(base, Positions(), acc, [(p, d)]);
    }

    /**
     * The raises of one path step from column `from` into column `to` at
     * the given layer, in the order the source makes them: a step that stays
     * raises Back and Forward of its cell in the first half and Back alone
     * in the second; a move raises Back and the exit face of the mid cell
     * (the old column at the new layer), then the entry face of the new cell
     * (twice in the second half) and its Forward face.
     */
    method ApplyHop(layer: int, from: Column, to: Column, late: bool)
      requires GridReady()
      requires 0 <= layer < dims.z && InPlane(dims, from) && InPlane(dims, to)
      modifies cellGrid
      ensures GridReady() && Points() == RaisedAll(old(Points()), Positions(), HopRaises(layer, from, to, late))
      ensures Decisions() == old(Decisions())
    {
      var current := Pos(to.x, to.y, layer);
      var mid := Pos(from.x, from.y, layer);
      ghost var base := Points();
      RaisedAllEmpty(base, Positions());
      match MoveOf(from, to)
      case None =>
        RaiseThen(current, Back, base, []);
        if late {
          HopRaisesStayLate(layer, from, to);
        } else {
          HopRaisesStayEarly(layer, from, to);
          RaiseThen(current, Forward, base, [] + [(current, Back)]);
        }
      case Some(d) =>
        HopRaisesMove(layer, from, to, late, d);
        RaiseThen(mid, Back, base, []);
        RaiseThen(mid, d, base, [] + [(mid, Back)]);
        RaiseThen(current, d.Opposite(), base, [] + [(mid, Back)] + [(mid, d)]);
        ghost var entered := [] + [(mid, Back)] + [(mid, d)] + [(current, d.Opposite())];
        if late {
          RaiseThen(current, d.Opposite(), base, entered);
          RaiseThen(current, Forward, base, entered + [(current, d.Opposite())]);
        } else {
          RaiseThen(current, Forward, base, entered);
        }
    }

    /**
     * Step j of a path: the next column, and the raises of the step from
     * the current column into layer start.z + j.
     */
    method PathStep(j: int, current: Column, ghost route: seq<Column>, ghost base: seq<Counters>)
      returns (next: Column)
      requires Setup() && GridReady()
      requires 1 <= j < endLocation.z - startLocation.z && |route| == j && route[j - 1] == current
      requires WalkPrefix(dims, startLocation, endLocation, route)
      requires |base| == |cellGrid|
      requires Points() == RaisedAll(base, Positions(), RouteRaises(route, startLocation.z, endLocation.z - startLocation.z))
      modifies cellGrid
      ensures GridReady() && WalkPrefix(dims, startLocation, endLocation, route + [next])
      ensures Points() == RaisedAll(base, Positions(), RouteRaises(route + [next], startLocation.z, endLocation.z - startLocation.z))
      ensures Decisions() == old(Decisions())
    {
      var zDist := endLocation.z - startLocation.z;
      assert InPlane(dims, current) by {
        if j > 1 {
          assert WalkStep(dims, Column(endLocation.x, endLocation.y), route[j - 2], route[j - 1], j - 1, zDist);
        }
      }
      next := NextColumn(dims, current, startLocation, endLocation, j);
      WalkExtend(dims, startLocation, endLocation, route, next);
      RaiseStep(j, current, next, route, base);
    }

    /** The raises of step j of a walk, on top of those of the walk so far. */
    method RaiseStep(j: int, current: Column, next: Column, ghost route: seq<Column>, ghost base: seq<Counters>)
      requires GridReady() && InPlane(dims, current) && InPlane(dims, next)
      requires 1 <= j && 0 <= startLocation.z + j < dims.z && |route| == j && route[j - 1] == current
      requires |base| == |cellGrid|
      requires Points() == RaisedAll(base, Positions(), RouteRaises(route, startLocation.z, endLocation.z - startLocation.z))
      modifies cellGrid
      ensures GridReady()
      ensures Points() == RaisedAll(base, Positions(), RouteRaises(route + [next], startLocation.z, endLocation.z - startLocation.z))
      ensures Decisions() == old(Decisions())
    {
      var zDist := endLocation.z - startLocation.z;
      ghost var before := Points();
      ApplyHop(startLocation.z + j, current, next, Late(j, zDist));
      RaisedRouteStep(base, Positions(), route, j, current, next, startLocation.z, zDist, before, Points());
    }

    /**
     * One path of GenerateSplinesNew: from the start column, one step per
     * layer up to the layer before the end, raising the faces each step
     * crosses.
     */
    method WalkPath() returns (ghost route: seq<Column>)
      requires Setup() && GridReady()
      modifies cellGrid
      ensures GridReady() && Walk(dims, startLocation, endLocation, route)
      ensures Points() == RaisedAll(old(Points()), Positions(),
        RouteRaises(route, startLocation.z, endLocation.z - startLocation.z))
      ensures Decisions() == old(Decisions())
    {
      var zDist := endLocation.z - startLocation.z;
      ghost var base := Points();
      var current := Column(startLocation.x, startLocation.y);
      route := [current];
      RaisedAllEmpty(base, Positions());
      var j := 1;
      while j < zDist
        invariant 1 <= j <= (if zDist >= 1 then zDist else 1)
        invariant |route| == j && route[j - 1] == current
        invariant WalkPrefix(dims, startLocation, endLocation, route)
        invariant GridReady() && Points() == RaisedAll(base, Positions(), RouteRaises(route, startLocation.z, zDist))
        invariant Decisions() == old(Decisions())
      {
        var next := PathStep(j, current, route, base);
        route := route + [next];
        current := next;
        j := j + 1;
      }
    }

    /** AnalyzeOpeningOptions on the cell at index i. */
    method FilterCell(i: int)
      requires GridReady() && 0 <= i < |cellGrid|
      modifies cellGrid[i]
      ensures GridReady() && Points() == old(Points())
      ensures cellGrid[i].filteredOptions == OpeningFilter(old(cellGrid[i].filteredOptions), cellGrid[i].points)
      ensures cellGrid[i].collapsed == old(cellGrid[i].collapsed) && cellGrid[i].tileOptions == old(cellGrid[i].tileOptions)
    {
      CellsDistinct();
      var cell := cellGrid[i];
      cell.AnalyzeOpeningOptions();
      forall t | t in cell.filteredOptions
        ensures t in KnownTiles()
      {
        OpeningFilterMember(old(cell.filteredOptions), cell.points, t);
      }
      assert Points() == old(Points());
    }

    /**
     * The closing pass of GenerateSplinesNew: every cell drops the options
     * whose openings disagree with its counters.
     */
    method FilterOpenings()
      requires GridReady()
      modifies cellGrid
      ensures GridReady() && Points() == old(Points())
      ensures forall i :: 0 <= i < |cellGrid| ==>
        cellGrid[i].filteredOptions == OpeningFilter(old(cellGrid[i].filteredOptions), cellGrid[i].points)
      ensures forall i, t :: 0 <= i < |cellGrid| && t in cellGrid[i].filteredOptions ==> MatchesOpenings(t, cellGrid[i].points)
      ensures forall i :: 0 <= i < |cellGrid| ==>
        cellGrid[i].collapsed == old(cellGrid[i].collapsed) && cellGrid[i].tileOptions == old(cellGrid[i].tileOptions)
    {
      CellsDistinct();
      var i := 0;
      while i < |cellGrid|
        invariant 0 <= i <= |cellGrid|
        invariant GridReady() && Points() == old(Points())
        invariant forall k :: 0 <= k < i ==>
          cellGrid[k].filteredOptions == OpeningFilter(old(cellGrid[k].filteredOptions), cellGrid[k].points)
        invariant forall k :: i <= k < |cellGrid| ==> cellGrid[k].filteredOptions == old(cellGrid[k].filteredOptions)
        invariant forall k :: 0 <= k < |cellGrid| ==>
          cellGrid[k].collapsed == old(cellGrid[k].collapsed) && cellGrid[k].tileOptions == old(cellGrid[k].tileOptions)
      {
        FilterCell(i);
        i := i + 1;
      }
      forall k, t | 0 <= k < |cellGrid| && t in cellGrid[k].filteredOptions
        ensures MatchesOpenings(t, cellGrid[k].points)
      {
        OpeningFilterMember(old(cellGrid[k].filteredOptions), cellGrid[k].points, t);
      }
    }

    /**
     * The path phase: a random number of walks from the start tile towards
     * the end tile, each raising the faces it passes through, and then the
     * opening filter on every cell.
     */
    method GenerateSplinesNew() returns (ghost routes: seq<seq<Column>>)
      requires Setup() && GridReady()
      modifies cellGrid
      ensures GridReady()
      ensures minSplines <= maxSplines ==> minSplines <= |routes| <= maxSplines
      ensures forall i :: 0 <= i < |routes| ==> Walk(dims, startLocation, endLocation, routes[i])
      ensures Points() == RaisedAll(old(Points()), Positions(),
        AllRaises(routes, startLocation.z, endLocation.z - startLocation.z))
      ensures forall i :: 0 <= i < |cellGrid| ==>
        cellGrid[i].filteredOptions == OpeningFilter(old(cellGrid[i].filteredOptions), cellGrid[i].points)
      ensures forall i, t :: 0 <= i < |cellGrid| && t in cellGrid[i].filteredOptions ==> MatchesOpenings(t, cellGrid[i].points)
      ensures forall i :: 0 <= i < |cellGrid| ==>
        cellGrid[i].collapsed == old(cellGrid[i].collapsed) && cellGrid[i].tileOptions == old(cellGrid[i].tileOptions)
    {
      var count: int;
      if minSplines <= maxSplines {
        count :| minSplines <= count <= maxSplines;
      } else {
        count :| maxSplines + 1 <= count <= minSplines;
      }
      var zDist := endLocation.z - startLocation.z;
      ghost var base := Points();
      RaisedAllEmpty(base, Positions());
      routes := [];
      var i := 0;
      while i < count
        invariant 0 <= i && |routes| == i && (count >= 0 ==> i <= count)
        invariant forall k :: 0 <= k < i ==> Walk(dims, startLocation, endLocation, routes[k])
        invariant GridReady() && Points() == RaisedAll(base, Positions(), AllRaises(routes, startLocation.z, zDist))
        invariant Decisions() == old(Decisions())
      {
        ghost var before := Points();
        ghost var route := WalkPath();
        RaisedRoutesStep(base, Positions(), routes, route, startLocation.z, zDist, before, Points());
        routes := routes + [route];
        i := i + 1;
      }
      ghost var raised := Points();
      ghost var decided := Decisions();
      FilterOpenings();
      assert forall k :: 0 <= k < |cellGrid| ==> decided[k] == old(Decisions())[k];
    }
  }
}
