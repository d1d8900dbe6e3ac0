/**
 * Tile prototypes and the adjacency compiler (Tile3D.cs).
 *
 * A tile has six faces, each a (style, opening count) pair kept in a Sides3D
 * object, and six lists of tiles that may sit next to it, kept in a
 * ValidNeighbours3D object. Analyze fills the lists by comparing side styles.
 * Tiles are compared by reference, as the source's List.Contains does.
 */
module Tiles {
  import opened Directions
  import opened Wrappers
  import opened Grid

  datatype SideStyle = Blank | Wide | Tall | Center | Two | Unknown

  /** The size of one connector socket on a face (Connector.cs). */
  datatype ConnectorSize = Standard | Wide

  datatype Face = Face(style: SideStyle, openings: int)

  const BlankFace: Face := Face(Blank, 0)

  /** One face per direction, indexed by Direction.Index(). */
  type SixFaces = s: seq<Face> | |s| == 6 witness [BlankFace, BlankFace, BlankFace, BlankFace, BlankFace, BlankFace]

  const BlankFaces: SixFaces := [BlankFace, BlankFace, BlankFace, BlankFace, BlankFace, BlankFace]

  function FaceAt(faces: SixFaces, d: Direction): Face
  {
    faces[d.Index()]
  }

  /** The faces with the one in direction d replaced; the other five are kept. */
  function WithFace(faces: SixFaces, d: Direction, f: Face): (r: SixFaces)
    ensures FaceAt(r, d) == f
    ensures forall e: Direction :: e != d ==> FaceAt(r, e) == FaceAt(faces, e)
  {
    DirectionFacts();
    faces[d.Index() := f]
  }

  class Sides3D {
    var faces: SixFaces

    /** A new Sides3D has six blank faces with no openings. */
    constructor ()
      ensures faces == BlankFaces
    {
      faces := BlankFaces;
    }

    function Style(d: Direction): SideStyle
      reads this
    {
      FaceAt(faces, d).style
    }

    function Openings(d: Direction): int
      reads this
    {
      FaceAt(faces, d).openings
    }

    /** Overwrites the style and the opening count of one face. */
    method SetSideStyle(side: Direction, newStyle: SideStyle, openingsCount: int)
      modifies this
      ensures faces == WithFace(old(faces), side, Face(newStyle, openingsCount))
    {
      faces := WithFace(faces, side, Face(newStyle, openingsCount));
    }
  }

  /** One list of tiles per direction, indexed by Direction.Index(). */
  type SixLists = s: seq<seq<Tile3D>> | |s| == 6 witness [[], [], [], [], [], []]

  const NoLists: SixLists := [[], [], [], [], [], []]

  function ListAt(lists: SixLists, d: Direction): seq<Tile3D>
  {
    lists[d.Index()]
  }

  /** The lists with t appended to the one for direction d; the other five are kept. */
  function Appended(lists: SixLists, d: Direction, t: Tile3D): (r: SixLists)
    ensures ListAt(r, d) == ListAt(lists, d) + [t]
    ensures forall e: Direction :: e != d ==> ListAt(r, e) == ListAt(lists, e)
  {
    DirectionFacts();
    lists[d.Index() := lists[d.Index()] + [t]]
  }

  class ValidNeighbours3D {
    var lists: SixLists

    constructor ()
      ensures lists == NoLists
    {
      lists := NoLists;
    }

    /** Appends the tile to exactly the list selected by the side. */
    method Add(tile: Tile3D, side: Direction)
      modifies this
      ensures lists == Appended(old(lists), side, tile)
    {
      lists := Appended(lists, side, tile);
    }
  }

  /**
   * The tiles of `tiles`, in order and with repetitions, that may be placed
   * in direction d of a tile whose face d has the given style: those whose
   * opposite face has an equal style.
   */
  function Fitting(tiles: seq<Tile3D>, d: Direction, style: SideStyle): seq<Tile3D>
    reads set t | t in tiles :: t.sides
  {
    if tiles == [] then []
    else
      var last := tiles[|tiles| - 1];
      Fitting(tiles[..|tiles| - 1], d, style) + (if last.sides.Style(d.Opposite()) == style then [last] else [])
  }

  class Tile3D {
    const sides: Sides3D
    const validNeighbours: ValidNeighbours3D

    /**
     * A tile whose faces are already classified. The six SetSideStyle calls
     * are those that close the face discovery of the source.
     */
    constructor (faces: SixFaces)
      ensures fresh(sides) && fresh(validNeighbours)
      ensures sides.faces == faces
      ensures validNeighbours.lists == NoLists
    {
      var s := new Sides3D();
      var i := 0;
      while i < 6
        invariant 0 <= i <= 6
        invariant forall k :: 0 <= k < i ==> s.faces[k] == faces[k]
      {
        var d := AllDirections[i];
        s.SetSideStyle(d, faces[i].style, faces[i].openings);
        i := i + 1;
      }
      sides := s;
      validNeighbours := new ValidNeighbours3D();
    }

    /**
     * Appends to each direction's list every tile of `tiles` whose opposite
     * face has the style of this tile's face, in array order.
     */
    method Analyze(tiles: seq<Tile3D>)
      modifies validNeighbours
      ensures forall d: Direction ::
        ListAt(validNeighbours.lists, d) == ListAt(old(validNeighbours.lists), d) + Fitting(tiles, d, sides.Style(d))
    {
      var i := 0;
      while i < |tiles|
        invariant 0 <= i <= |tiles|
        invariant forall d: Direction ::
          ListAt(validNeighbours.lists, d) == ListAt(old(validNeighbours.lists), d) + Fitting(tiles[..i], d, sides.Style(d))
      {
        var t := tiles[i];
        AnalyzeAgainst(t);
        forall d: Direction
          ensures ListAt(validNeighbours.lists, d) == ListAt(old(validNeighbours.lists), d) + Fitting(tiles[..i + 1], d, sides.Style(d))
        {
          FittingSnoc(tiles, i, d, sides.Style(d));
        }
        i := i + 1;
      }
      assert tiles[..|tiles|] == tiles;
    }

    /**
     * Analyze, read as membership: afterwards u is in the list for d exactly
     * when it was before or it is one of the tiles and fits there.
     */
    method AnalyzeMembers(tiles: seq<Tile3D>)
      modifies validNeighbours
      ensures forall d: Direction, u ::
        (u in ListAt(validNeighbours.lists, d)
         <==> u in ListAt(old(validNeighbours.lists), d) || (u in tiles && Fits(sides.faces, u.sides.faces, d)))
    {
      Analyze(tiles);
      forall d: Direction, u
        ensures u in ListAt(validNeighbours.lists, d)
          <==> u in ListAt(old(validNeighbours.lists), d) || (u in tiles && Fits(sides.faces, u.sides.faces, d))
      {
        FittingMember(tiles, d, sides.Style(d), u);
      }
    }

    /** The six tests of Analyze for one candidate tile, in the source's order. */
    method AnalyzeAgainst(t: Tile3D)
      modifies validNeighbours
      ensures forall d: Direction ::
        ListAt(validNeighbours.lists, d) == ListAt(old(validNeighbours.lists), d) + Extension(t, d)
    {
      AddIfFits(t, Forward);
      ghost var l1 := validNeighbours.lists;
      AddIfFits(t, Right);
      ghost var l2 := validNeighbours.lists;
      AddIfFits(t, Back);
      ghost var l3 := validNeighbours.lists;
      AddIfFits(t, Left);
      ghost var l4 := validNeighbours.lists;
      AddIfFits(t, Down);
      ghost var l5 := validNeighbours.lists;
      AddIfFits(t, Up);
      forall d: Direction
        ensures ListAt(validNeighbours.lists, d) == ListAt(old(validNeighbours.lists), d) + Extension(t, d)
      {
        match d
        case Forward => assert ListAt(validNeighbours.lists, d) == ListAt(l1, d);
        case Right => assert ListAt(validNeighbours.lists, d) == ListAt(l2, d) && ListAt(l1, d) == ListAt(old(validNeighbours.lists), d);
        case Back => assert ListAt(validNeighbours.lists, d) == ListAt(l3, d) && ListAt(l2, d) == ListAt(old(validNeighbours.lists), d);
        case Left => assert ListAt(validNeighbours.lists, d) == ListAt(l4, d) && ListAt(l3, d) == ListAt(old(validNeighbours.lists), d);
        case Down => assert ListAt(validNeighbours.lists, d) == ListAt(l5, d) && ListAt(l4, d) == ListAt(old(validNeighbours.lists), d);
        case Up => assert ListAt(l5, d) == ListAt(old(validNeighbours.lists), d);
      }
    }

    /** What Analyze appends to the list for d when it meets t: t itself if t fits there. */
    function Extension(t: Tile3D, d: Direction): seq<Tile3D>
      reads sides, t.sides
    {
      if t.sides.Style(d.Opposite()) == sides.Style(d) then [t] else []
    }

    /** One of the six tests of Analyze: appends t to the list for d when t fits there. */
    method AddIfFits(t: Tile3D, d: Direction)
      modifies validNeighbours
      ensures ListAt(validNeighbours.lists, d) == ListAt(old(validNeighbours.lists), d) + Extension(t, d)
      ensures forall e: Direction :: e != d ==> ListAt(validNeighbours.lists, e) == ListAt(old(validNeighbours.lists), e)
    {
      if t.sides.Style(d.Opposite()) == sides.Style(d) {
        validNeighbours.Add(t, d);
      }
    }

    /**
     * The opening count of a horizontal face; the source throws for Up and
     * Down, which is None here.
     */
    function GetSideCount(direction: Direction): (r: Option<int>)
      reads sides
      ensures r.Some? <==> direction != Up && direction != Down
      ensures r.Some? ==> r.value == sides.Openings(direction)
    {
      match direction
      case Forward => Some(sides.Openings(Forward))
      case Right => Some(sides.Openings(Right))
      case Back => Some(sides.Openings(Back))
      case Left => Some(sides.Openings(Left))
      case _ => None
    }
  }

  /** Extending the tiles by one extends the fitting list by that tile if it fits. */
  lemma FittingSnoc(tiles: seq<Tile3D>, i: nat, d: Direction, style: SideStyle)
    requires i < |tiles|
    ensures Fitting(tiles[..i + 1], d, style)
         == Fitting(tiles[..i], d, style) + (if tiles[i].sides.Style(d.Opposite()) == style then [tiles[i]] else [])
  {
    assert tiles[..i + 1][..i] == tiles[..i];
  }

  /** u is in the fitting list exactly when it is one of the tiles and its opposite face has the style. */
  lemma {:induction false} FittingMember(tiles: seq<Tile3D>, d: Direction, style: SideStyle, u: Tile3D)
    ensures u in Fitting(tiles, d, style) <==> u in tiles && u.sides.Style(d.Opposite()) == style
  {
    if tiles != [] {
      var init := tiles[..|tiles| - 1];
      FittingMember(init, d, style, u);
      assert tiles == init + [tiles[|tiles| - 1]];
    }
  }

  /**
   * One entry per matching tile: a tile that fits occurs in the list as
   * often as in `tiles`, a tile that does not fit never occurs.
   */
  lemma {:induction false} FittingCount(tiles: seq<Tile3D>, d: Direction, style: SideStyle, u: Tile3D)
    ensures multiset(Fitting(tiles, d, style))[u]
         == if u.sides.Style(d.Opposite()) == style then multiset(tiles)[u] else 0
  {
    if tiles != [] {
      var init := tiles[..|tiles| - 1];
      FittingCount(init, d, style, u);
      assert tiles == init + [tiles[|tiles| - 1]];
    }
  }

  /**
   * Every tile of `tiles` has had Analyze(tiles) applied to it on empty
   * lists, once or more: the list for d of each tile holds exactly the
   * tiles of `tiles` that fit in direction d.
   */
  ghost predicate Analyzed(tiles: seq<Tile3D>)
    reads set t | t in tiles :: t.sides
    reads set t | t in tiles :: t.validNeighbours
  {
    && (forall t, d: Direction, u :: t in tiles && u in ListAt(t.validNeighbours.lists, d) ==> u in tiles)
    && (forall t, d: Direction, u :: t in tiles && u in tiles ==>
          (u in ListAt(t.validNeighbours.lists, d) <==> Fits(t.sides.faces, u.sides.faces, d)))
  }

  /**
   * What the analysis pass has done after the tiles of `done`: their lists
   * hold exactly the tiles of `tiles` that fit, and every other tile's lists
   * are still empty.
   */
  ghost predicate AnalyzedSoFar(tiles: seq<Tile3D>, done: set<Tile3D>)
    reads set t | t in tiles :: t.sides
    reads set t | t in tiles :: t.validNeighbours
  {
    && (forall t :: t in done ==> t in tiles)
    && (forall t, d: Direction, u :: t in done && u in ListAt(t.validNeighbours.lists, d) ==> u in tiles)
    && (forall t, d: Direction, u :: t in done && u in tiles ==>
          (u in ListAt(t.validNeighbours.lists, d) <==> Fits(t.sides.faces, u.sides.faces, d)))
    && (forall t :: t in tiles && t !in done ==> t.validNeighbours.lists == NoLists)
  }

  /** One step of the analysis pass: Analyze(tiles) on one more tile. */
  method AnalyzeStep(tiles: seq<Tile3D>, tile: Tile3D, ghost done: set<Tile3D>)
    requires forall t, s :: t in tiles && s in tiles && t != s ==> t.validNeighbours != s.validNeighbours
    requires tile in tiles && AnalyzedSoFar(tiles, done)
    modifies tile.validNeighbours
    ensures AnalyzedSoFar(tiles, done + {tile})
  {
    ghost var before := tile.validNeighbours.lists;
    assert tile !in done ==> before == NoLists;
    tile.AnalyzeMembers(tiles);
    forall t, d: Direction, u | t in done + {tile} && u in tiles
      ensures u in ListAt(t.validNeighbours.lists, d) <==> Fits(t.sides.faces, u.sides.faces, d)
    {
      if t == tile && tile !in done {
        assert ListAt(before, d) == [];
      }
    }
    forall t, d: Direction, u | t in done + {tile} && u in ListAt(t.validNeighbours.lists, d)
      ensures u in tiles
    {
      if t == tile && tile !in done {
        assert ListAt(before, d) == [];
      }
    }
  }

  /**
   * The analysis pass of the generator: Analyze(tiles) on every tile of
   * `tiles` in turn, starting from empty adjacency lists.
   */
  method AnalyzeAll(tiles: seq<Tile3D>)
    requires forall t, s :: t in tiles && s in tiles && t != s ==> t.validNeighbours != s.validNeighbours
    requires forall t :: t in tiles ==> t.validNeighbours.lists == NoLists
    modifies set t | t in tiles :: t.validNeighbours
    ensures Analyzed(tiles)
  {
    ghost var done: set<Tile3D> := {};
    var i := 0;
    while i < |tiles|
      invariant 0 <= i <= |tiles|
      invariant forall k :: 0 <= k < i ==> tiles[k] in done
      invariant AnalyzedSoFar(tiles, done)
    {
      AnalyzeStep(tiles, tiles[i], done);
      done := done + {tiles[i]};
      i := i + 1;
    }
  }

  /**
   * Symmetry of the compiled adjacency: b may sit in direction d of a exactly
   * when a may sit in the opposite direction of b.
   */
  lemma AdjacencySymmetric(tiles: seq<Tile3D>, a: Tile3D, b: Tile3D, d: Direction)
    requires Analyzed(tiles)
    requires a in tiles && b in tiles
    ensures b in ListAt(a.validNeighbours.lists, d) <==> a in ListAt(b.validNeighbours.lists, d.Opposite())
  {
    FitsSymmetricStylesOnly(a.sides.faces, b.sides.faces, a.sides.faces, b.sides.faces, d);
  }

  /** The compatibility test itself: styles only, symmetric under swapping the pair and the direction. */
  predicate Fits(a: SixFaces, b: SixFaces, d: Direction)
  {
    FaceAt(b, d.Opposite()).style == FaceAt(a, d).style
  }

  lemma FitsSymmetricStylesOnly(a: SixFaces, b: SixFaces, a': SixFaces, b': SixFaces, d: Direction)
    requires forall e: Direction :: FaceAt(a, e).style == FaceAt(a', e).style && FaceAt(b, e).style == FaceAt(b', e).style
    ensures Fits(a, b, d) <==> Fits(b, a, d.Opposite())
    ensures Fits(a, b, d) <==> Fits(a', b', d)
  {
    DirectionFacts();
  }

  /**
   * Classifies a face by its connectors. The orientation test of the source
   * (a wide connector on a tile turned on its side reads as Tall) is the
   * boolean `tallOrientation`.
   */
  function CheckSide(connectors: seq<ConnectorSize>, tallOrientation: bool): (r: SideStyle)
    ensures r == Blank <==> |connectors| == 0
    ensures r == Center <==> |connectors| == 1 && connectors[0].Standard?
    ensures (r == SideStyle.Wide || r == Tall) <==> |connectors| == 1 && connectors[0].Wide?
    ensures r == Tall <==> |connectors| == 1 && connectors[0].Wide? && tallOrientation
    ensures r == Two <==> |connectors| == 2
    ensures r == Unknown <==> |connectors| > 2
  {
    if |connectors| == 0 then Blank
    else if |connectors| == 1 then
      if connectors[0].Wide? then
        if tallOrientation then Tall else SideStyle.Wide
      else Center
    else if |connectors| == 2 then Two
    else Unknown
  }

  /**
   * A face as discovered from its connectors: the style and the connector
   * count, so that it has openings exactly when its style is not Blank.
   */
  function DiscoveredFace(connectors: seq<ConnectorSize>, tallOrientation: bool): (f: Face)
    ensures f.openings == |connectors|
    ensures f.openings > 0 <==> f.style != Blank
  {
    Face(CheckSide(connectors, tallOrientation), |connectors|)
  }

  /** C#'s integer division, which truncates toward zero. */
  function TruncDiv(a: int, b: int): int
    requires b != 0
  {
    if a >= 0 && b > 0 then a / b
    else if a >= 0 then -(a / -b)
    else if b > 0 then -((-a) / b)
    else (-a) / (-b)
  }

  /** C#'s remainder, which takes the sign of the dividend. */
  function TruncMod(a: int, b: int): int
    requires b != 0
  {
    a - b * TruncDiv(a, b)
  }

  /**
   * The (column, row) of item `count` in rows of `itemsPerRow`; the source
   * throws on a zero row length, which is None here.
   */
  function GetCoordinates(count: int, itemsPerRow: int): (r: Option<(int, int)>)
    ensures r.Some? <==> itemsPerRow != 0
    ensures r.Some? ==> r.value.1 * itemsPerRow + r.value.0 == count
    ensures r.Some? && count >= 0 && itemsPerRow > 0 ==> 0 <= r.value.0 < itemsPerRow && r.value.1 >= 0
  {
    if itemsPerRow == 0 then None
    else Some((TruncMod(count, itemsPerRow), TruncDiv(count, itemsPerRow)))
  }

  /** GetCoordinates inverts the row-major numbering of a grid with nonnegative coordinates. */
  lemma GetCoordinatesRoundTrip(x: int, y: int, n: int)
    requires n > 0 && 0 <= x < n && y >= 0
    ensures GetCoordinates(y * n + x, n) == Some((x, y))
  {
    var c := y * n + x;
    assert c >= 0 by { assert y * n >= 0; }
    DivUnique(c, n, y, x);
    assert TruncDiv(c, n) == y;
  }
}
