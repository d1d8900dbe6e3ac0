/**
 * One grid cell (Cell3D.cs): whether it is collapsed, the tiles it may still
 * take, and six path counters, one per face. A counter above zero means a
 * path runs through that face, so the cell's tile needs an opening there.
 */
module Cells {
  import opened Directions
  import opened Tiles
  import opened Grid

  /** The six path counters, indexed by Direction.Index(). */
  type Counters = s: seq<int> | |s| == 6 witness [0, 0, 0, 0, 0, 0]

  const Zeros: Counters := [0, 0, 0, 0, 0, 0]

  function PointsAt(p: Counters, d: Direction): int
  {
    p[d.Index()]
  }

  /** The counters with the one for d raised by one; the other five are kept. */
  function Bump(p: Counters, d: Direction): (r: Counters)
    ensures PointsAt(r, d) == PointsAt(p, d) + 1
    ensures forall e: Direction :: e != d ==> PointsAt(r, e) == PointsAt(p, e)
    ensures NonNegative(p) ==> NonNegative(r) && OpenSides(r) == OpenSides(p) + {d}
  {
    DirectionFacts();
    p[d.Index() := p[d.Index()] + 1]
  }

  /** Counters are equal when they agree on every face. */
  lemma CountersExt(a: Counters, b: Counters)
    requires forall d: Direction :: PointsAt(a, d) == PointsAt(b, d)
    ensures a == b
  {
    DirectionFacts();
    forall k | 0 <= k < 6
      ensures a[k] == b[k]
    {
      assert AllDirections[k].Index() == k;
      assert PointsAt(a, AllDirections[k]) == PointsAt(b, AllDirections[k]);
    }
  }

  /** Counters only ever grow from zero. */
  predicate NonNegative(p: Counters)
  {
    forall k :: 0 <= k < 6 ==> p[k] >= 0
  }

  /** 1 when a path runs through face d, 0 otherwise. */
  function OpenSide(p: Counters, d: Direction): int
  {
    if PointsAt(p, d) > 0 then 1 else 0
  }

  /** The faces a path runs through. */
  function OpenSides(p: Counters): set<Direction>
  {
    set d | d in AllDirections && PointsAt(p, d) > 0
  }

  /** How many of the directions in ds are open, counting repetitions. */
  function CountOpen(p: Counters, ds: seq<Direction>): nat
  {
    if ds == [] then 0
    else CountOpen(p, ds[..|ds| - 1]) + (if PointsAt(p, ds[|ds| - 1]) > 0 then 1 else 0)
  }

  /** Over distinct directions the count is the size of the open set. */
  lemma {:induction false} CountOpenIsSize(p: Counters, ds: seq<Direction>)
    requires forall i, j :: 0 <= i < j < |ds| ==> ds[i] != ds[j]
    ensures CountOpen(p, ds) == |set d | d in ds && PointsAt(p, d) > 0|
  {
    if ds != [] {
      var init := ds[..|ds| - 1];
      var last := ds[|ds| - 1];
      CountOpenIsSize(p, init);
      var before := set d | d in init && PointsAt(p, d) > 0;
      var after := set d | d in ds && PointsAt(p, d) > 0;
      assert ds == init + [last];
      assert last !in init;
      if PointsAt(p, last) > 0 {
        assert after == before + {last};
      } else {
        assert after == before;
      }
    }
  }

  /** CountOpen over the six directions, written out. */
  lemma CountOpenUnfold(p: Counters)
    ensures CountOpen(p, AllDirections)
         == (if PointsAt(p, Forward) > 0 then 1 else 0)
          + (if PointsAt(p, Right) > 0 then 1 else 0)
          + (if PointsAt(p, Back) > 0 then 1 else 0)
          + (if PointsAt(p, Left) > 0 then 1 else 0)
          + (if PointsAt(p, Up) > 0 then 1 else 0)
          + (if PointsAt(p, Down) > 0 then 1 else 0)
  {
    var ds := AllDirections;
    assert ds[..6][..5] == ds[..5] && ds[..5][..4] == ds[..4] && ds[..4][..3] == ds[..3];
    assert ds[..3][..2] == ds[..2] && ds[..2][..1] == ds[..1] && ds[..1][..0] == [];
    assert ds[..6] == ds;
    assert CountOpen(p, ds[..1]) == (if PointsAt(p, Forward) > 0 then 1 else 0);
    assert CountOpen(p, ds[..2]) == CountOpen(p, ds[..1]) + (if PointsAt(p, Right) > 0 then 1 else 0);
    assert CountOpen(p, ds[..3]) == CountOpen(p, ds[..2]) + (if PointsAt(p, Back) > 0 then 1 else 0);
    assert CountOpen(p, ds[..4]) == CountOpen(p, ds[..3]) + (if PointsAt(p, Left) > 0 then 1 else 0);
    assert CountOpen(p, ds[..5]) == CountOpen(p, ds[..4]) + (if PointsAt(p, Up) > 0 then 1 else 0);
  }

  /**
   * Whether the tile's opening count on a face agrees with the cell's
   * counter there: for nonnegative counts, both are zero or both positive.
   */
  predicate OpeningAgrees(openings: int, points: int): (r: bool)
    ensures openings >= 0 && points >= 0 ==> (r <==> (openings > 0 <==> points > 0))
  {
    (openings > 0 && points > 0) || (openings == 0 && points == 0)
  }

  /**
   * The test of AnalyzeOpeningOptions, face by face in the source's order.
   * With nonnegative counts, a tile passes exactly when it has an opening on
   * the faces a path runs through and on no other.
   */
  predicate MatchesOpenings(t: Tile3D, p: Counters): (r: bool)
    reads t.sides
    ensures (forall d: Direction :: t.sides.Openings(d) >= 0) && NonNegative(p) ==>
      (r <==> forall d: Direction :: (t.sides.Openings(d) > 0 <==> d in OpenSides(p)))
  {
    && OpeningAgrees(t.sides.Openings(Forward), PointsAt(p, Forward))
    && OpeningAgrees(t.sides.Openings(Right), PointsAt(p, Right))
    && OpeningAgrees(t.sides.Openings(Back), PointsAt(p, Back))
    && OpeningAgrees(t.sides.Openings(Left), PointsAt(p, Left))
    && OpeningAgrees(t.sides.Openings(Up), PointsAt(p, Up))
    && OpeningAgrees(t.sides.Openings(Down), PointsAt(p, Down))
  }

  /** The tiles of ts, in order, that MatchesOpenings keeps. */
  function OpeningFilter(ts: seq<Tile3D>, p: Counters): seq<Tile3D>
    reads set t | t in ts :: t.sides
  {
    if ts == [] then []
    else
      var last := ts[|ts| - 1];
      OpeningFilter(ts[..|ts| - 1], p) + (if MatchesOpenings(last, p) then [last] else [])
  }

  /** A tile survives the filter exactly when it was an option and its openings match. */
  lemma {:induction false} OpeningFilterMember(ts: seq<Tile3D>, p: Counters, u: Tile3D)
    ensures u in OpeningFilter(ts, p) <==> u in ts && MatchesOpenings(u, p)
  {
    if ts != [] {
      var init := ts[..|ts| - 1];
      OpeningFilterMember(init, p, u);
      assert ts == init + [ts[|ts| - 1]];
    }
  }

  /** The filter never adds: its result is no longer than its input. */
  lemma {:induction false} OpeningFilterShrinks(ts: seq<Tile3D>, p: Counters)
    ensures |OpeningFilter(ts, p)| <= |ts|
  {
    if ts != [] {
      OpeningFilterShrinks(ts[..|ts| - 1], p);
    }
  }

  /** Filtering a second time with the same counters changes nothing. */
  lemma {:induction false} OpeningFilterIdempotent(ts: seq<Tile3D>, p: Counters)
    ensures OpeningFilter(OpeningFilter(ts, p), p) == OpeningFilter(ts, p)
  {
    if ts != [] {
      var init := ts[..|ts| - 1];
      var last := ts[|ts| - 1];
      OpeningFilterIdempotent(init, p);
      var f := OpeningFilter(init, p);
      if MatchesOpenings(last, p) {
        var g := f + [last];
        assert g[..|g| - 1] == f;
        assert OpeningFilter(g, p) == OpeningFilter(f, p) + [last];
      } else {
        assert OpeningFilter(ts, p) == f;
      }
    }
  }

  class Cell3D {
    /** The cell's place in the grid (its transform position in the scene). */
    const pos: Pos
    var collapsed: bool
    var tileOptions: seq<Tile3D>
    var filteredOptions: seq<Tile3D>
    var points: Counters
    /** Raised by every IncreasePoints call and never read by the generator. */
    var sideCount: int

    /** A fresh cell as the prefab provides it: not collapsed, no options, all counters zero. */
    constructor (pos: Pos)
      ensures this.pos == pos
      ensures !collapsed && tileOptions == [] && filteredOptions == []
      ensures points == Zeros && sideCount == 0
    {
      this.pos := pos;
      collapsed := false;
      tileOptions := [];
      filteredOptions := [];
      points := Zeros;
      sideCount := 0;
    }

    method CreateCell(collapsedState: bool, tiles: seq<Tile3D>)
      modifies this
      ensures collapsed == collapsedState && tileOptions == tiles
      ensures filteredOptions == old(filteredOptions) && points == old(points) && sideCount == old(sideCount)
    {
      collapsed := collapsedState;
      tileOptions := tiles;
    }

    /** The engine's start hook: the working options begin as the whole option list. */
    method Start()
      modifies this
      ensures filteredOptions == tileOptions
      ensures collapsed == old(collapsed) && tileOptions == old(tileOptions)
      ensures points == old(points) && sideCount == old(sideCount)
    {
      filteredOptions := tileOptions;
    }

    /** Records one more path through face d. */
    method IncreasePoints(direction: Direction)
      modifies this
      ensures points == Bump(old(points), direction)
      ensures sideCount == old(sideCount) + 1
      ensures collapsed == old(collapsed) && tileOptions == old(tileOptions)
      ensures filteredOptions == old(filteredOptions)
    {
      sideCount := sideCount + 1;
      points := Bump(points, direction);
    }

    /** Clears the six counters; sideCount is left as it was. */
    method ResetPoints()
      modifies this
      ensures points == Zeros && NonNegative(points) && SideCount() == 0
      ensures sideCount == old(sideCount)
      ensures collapsed == old(collapsed) && tileOptions == old(tileOptions)
      ensures filteredOptions == old(filteredOptions)
    {
      points := Zeros;
      DirectionFacts();
    }

    /** The number of faces a path runs through. */
    function SideCount(): (r: int)
      reads this
      ensures r == |OpenSides(points)|
      ensures 0 <= r <= 6
      ensures r == 0 <==> forall d: Direction :: PointsAt(points, d) <= 0
    {
      CountOpenIsSize(points, AllDirections);
      assert OpenSides(points) <= set d | d in AllDirections;
      assert |set d | d in AllDirections| <= 6 by {
        assert (set d | d in AllDirections) == {Forward, Right, Back, Left, Up, Down};
      }
      DirectionFacts();
      CountOpenUnfold(points);
      assert CountOpen(points, AllDirections)
          == (if PointsAt(points, Forward) > 0 then 1 else 0)
           + (if PointsAt(points, Right) > 0 then 1 else 0)
           + (if PointsAt(points, Back) > 0 then 1 else 0)
           + (if PointsAt(points, Left) > 0 then 1 else 0)
           + (if PointsAt(points, Up) > 0 then 1 else 0)
           + (if PointsAt(points, Down) > 0 then 1 else 0);
      (if PointsAt(points, Forward) > 0 then 1 else 0)
      + (if PointsAt(points, Right) > 0 then 1 else 0)
      + (if PointsAt(points, Back) > 0 then 1 else 0)
      + (if PointsAt(points, Left) > 0 then 1 else 0)
      + (if PointsAt(points, Up) > 0 then 1 else 0)
      + (if PointsAt(points, Down) > 0 then 1 else 0)
    }

    /** 1 when a path runs through the face, 0 otherwise. */
    function GetOpenSides(direction: Direction): (r: int)
      reads this
      ensures r == 0 || r == 1
      ensures r == 1 <==> direction in OpenSides(points)
    {
      DirectionFacts();
      OpenSide(points, direction)
    }

    /** Drops every option whose openings disagree with the counters. */
    method AnalyzeOpeningOptions()
      modifies this
      ensures filteredOptions == OpeningFilter(old(filteredOptions), points)
      ensures forall t :: t in filteredOptions ==> MatchesOpenings(t, points)
      ensures collapsed == old(collapsed) && tileOptions == old(tileOptions)
      ensures points == old(points) && sideCount == old(sideCount)
    {
      var filteredList: seq<Tile3D> := [];
      var i := 0;
      while i < |filteredOptions|
        invariant 0 <= i <= |filteredOptions|
        invariant filteredList == OpeningFilter(filteredOptions[..i], points)
      {
        var tile := filteredOptions[i];
        if MatchesOpenings(tile, points) {
          filteredList := filteredList + [tile];
        }
        assert filteredOptions[..i + 1][..i] == filteredOptions[..i];
        i := i + 1;
      }
      assert filteredOptions[..i] == filteredOptions;
      forall t | t in filteredList
        ensures MatchesOpenings(t, points)
      {
        OpeningFilterMember(filteredOptions, points, t);
      }
      filteredOptions := filteredList;
    }
  }

  /** Opening a face changes SideCount by one exactly when the face was closed. */
  lemma BumpSideCount(c: Cell3D, d: Direction, before: Counters)
    requires NonNegative(before)
    requires c.points == Bump(before, d)
    ensures c.SideCount() == |OpenSides(before)| + (if d in OpenSides(before) then 0 else 1)
    ensures c.SideCount() >= 1 && c.GetOpenSides(d) == 1
  {
    var open := OpenSides(before);
    if d in open {
      assert open + {d} == open;
    } else {
      assert |open + {d}| == |open| + 1;
    }
    assert d in OpenSides(c.points);
  }

  /** SideCount is the sum of GetOpenSides over the six faces. */
  lemma SideCountSumsOpenSides(c: Cell3D)
    ensures c.SideCount()
         == c.GetOpenSides(Forward) + c.GetOpenSides(Right) + c.GetOpenSides(Back)
          + c.GetOpenSides(Left) + c.GetOpenSides(Up) + c.GetOpenSides(Down)
  {
  }
}
