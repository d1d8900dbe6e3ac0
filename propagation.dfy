/**
 * The constraint propagation pass of Generator3D.Draw, stated on values.
 *
 * After each collapse the generator visits every cell in index order and,
 * unless the cell is skipped, recomputes its options from the full tile
 * list: for each of the six directions it builds a list of acceptable tiles
 * from the neighbour on that side and keeps only the options found in it
 * (CheckValid). The sweep works in place: a cell visited later already
 * sees the new options of the cells visited before it.
 *
 * Cells are read through CellView values and the tiles' adjacency lists
 * through the Config snapshot; Generator3D.Propagate performs the same
 * sweep on the cell objects and is proved equal to Sweep.
 */
module Propagation {
  import opened Directions
  import opened Wrappers
  import opened Grid
  import opened Tiles
  import opened Cells

  /** What the sweep reads and writes of one cell. */
  datatype CellView = CellView(collapsed: bool, options: seq<Tile3D>, points: Counters, pos: Pos)

  /**
   * What the sweep reads of the generator: the grid size, the tile list
   * every recomputation starts from, each tile's six adjacency lists and the
   * position of the cell collapsed last.
   */
  datatype Config = Config(dims: Dims, tiles: seq<Tile3D>, adj: map<Tile3D, SixLists>, last: Pos)

  /** The adjacency lists of t; a tile without an entry has six empty lists. */
  function AdjAt(cfg: Config, t: Tile3D): SixLists
  {
    if t in cfg.adj then cfg.adj[t] else NoLists
  }

  // ---------------------------------------------------------------- CheckValid

  /** The options, in order, that occur in valid. */
  function Keep(options: seq<Tile3D>, valid: seq<Tile3D>): seq<Tile3D>
  {
    if options == [] then []
    else (if options[0] in valid then [options[0]] else []) + Keep(options[1..], valid)
  }

  /** An option survives exactly when it is in the valid list. */
  lemma {:induction false} KeepMember(options: seq<Tile3D>, valid: seq<Tile3D>, u: Tile3D)
    ensures u in Keep(options, valid) <==> u in options && u in valid
  {
    if options != [] {
      KeepMember(options[1..], valid, u);
      assert options == [options[0]] + options[1..];
    }
  }

  /** Keeping is a filter: never longer, and equal to the input when every option is valid. */
  lemma {:induction false} KeepShape(options: seq<Tile3D>, valid: seq<Tile3D>)
    ensures |Keep(options, valid)| <= |options|
    ensures (forall k :: 0 <= k < |options| ==> options[k] in valid) ==> Keep(options, valid) == options
  {
    if options != [] {
      KeepShape(options[1..], valid);
      assert forall k :: 1 <= k < |options| ==> options[1..][k - 1] == options[k];
      if forall k :: 0 <= k < |options| ==> options[k] in valid {
        assert forall k :: 0 <= k < |options[1..]| ==> options[1..][k] in valid;
        assert options == [options[0]] + options[1..];
      }
    }
  }

  /** Checking against the same list twice removes nothing more. */
  lemma KeepIdempotent(options: seq<Tile3D>, valid: seq<Tile3D>)
    ensures Keep(Keep(options, valid), valid) == Keep(options, valid)
  {
    var r := Keep(options, valid);
    forall k | 0 <= k < |r|
      ensures r[k] in valid
    {
      KeepMember(options, valid, r[k]);
    }
    KeepShape(r, valid);
  }

  /**
   * CheckValid: walks the options from the last to the first and removes
   * each one the valid list does not contain.
   */
  method CheckValid(options: seq<Tile3D>, valid: seq<Tile3D>) returns (r: seq<Tile3D>)
    ensures r == Keep(options, valid)
  {
    r := options;
    var i := |options|;
    while i > 0
      invariant 0 <= i <= |options|
      invariant r == options[..i] + Keep(options[i..], valid)
    {
      i := i - 1;
      assert options[i..] == [options[i]] + options[i + 1..];
      assert r[..i] == options[..i] && r[i] == options[i];
      var currentElement := r[i];
      if currentElement !in valid {
        r := r[..i] + r[i + 1..];
        assert r == options[..i] + Keep(options[i + 1..], valid);
      } else {
        assert options[..i + 1] == options[..i] + [options[i]];
      }
    }
    assert options[0..] == options;
  }

  // ------------------------------------------------------- the valid lists

  /** The lists for side e of every tile in opts, concatenated in order. */
  function Concat(cfg: Config, opts: seq<Tile3D>, e: Direction): seq<Tile3D>
  {
    if opts == [] then []
    else Concat(cfg, opts[..|opts| - 1], e) + ListAt(AdjAt(cfg, opts[|opts| - 1]), e)
  }

  lemma {:induction false} ConcatMember(cfg: Config, opts: seq<Tile3D>, e: Direction, u: Tile3D)
    ensures u in Concat(cfg, opts, e) <==> exists k :: 0 <= k < |opts| && u in ListAt(AdjAt(cfg, opts[k]), e)
  {
    if opts != [] {
      var init := opts[..|opts| - 1];
      ConcatMember(cfg, init, e, u);
      if u in Concat(cfg, opts, e) && u !in Concat(cfg, init, e) {
        assert u in ListAt(AdjAt(cfg, opts[|opts| - 1]), e);
      }
      if exists k :: 0 <= k < |opts| && u in ListAt(AdjAt(cfg, opts[k]), e) {
        var k :| 0 <= k < |opts| && u in ListAt(AdjAt(cfg, opts[k]), e);
        if k < |opts| - 1 {
          assert init[k] == opts[k];
        }
      }
    }
  }

  /**
   * The source's fallback for a side with no neighbour: the cell's own
   * options that accept the first tile of the tile list on that side.
   */
  function BlankFallback(cfg: Config, own: seq<Tile3D>, d: Direction): seq<Tile3D>
  {
    if own == [] then []
    else
      var last := own[|own| - 1];
      BlankFallback(cfg, own[..|own| - 1], d)
      + (if cfg.tiles != [] && cfg.tiles[0] in ListAt(AdjAt(cfg, last), d) then [last] else [])
  }

  lemma {:induction false} BlankFallbackMember(cfg: Config, own: seq<Tile3D>, d: Direction, u: Tile3D)
    ensures u in BlankFallback(cfg, own, d) <==> u in own && cfg.tiles != [] && cfg.tiles[0] in ListAt(AdjAt(cfg, u), d)
  {
    if own != [] {
      var init := own[..|own| - 1];
      BlankFallbackMember(cfg, init, d, u);
      assert own == init + [own[|own| - 1]];
    }
  }

  /**
   * The tiles acceptable on side d of cell i. With a neighbour j there: if
   * the two facing sides are both open or both closed, every tile the
   * neighbour's options accept on their opposite side, otherwise none.
   * Without a neighbour: the blank fallback.
   */
  function ValidFor(cfg: Config, g: seq<CellView>, i: nat, d: Direction): seq<Tile3D>
    requires i < |g|
  {
    match NeighbourIndex(cfg.dims, g[i].pos, d)
    case Some(j) =>
      if 0 <= j < |g| && OpenSide(g[j].points, d.Opposite()) == OpenSide(g[i].points, d) then
        Concat(cfg, g[j].options, d.Opposite())
      else []
    case None => BlankFallback(cfg, g[i].options, d)
  }

  /** The options after checking the first k directions, starting from the whole tile list. */
  function OptionsUpTo(cfg: Config, g: seq<CellView>, i: nat, k: nat): seq<Tile3D>
    requires i < |g| && k <= 6
  {
    if k == 0 then cfg.tiles
    else Keep(OptionsUpTo(cfg, g, i, k - 1), ValidFor(cfg, g, i, AllDirections[k - 1]))
  }

  /** The new options of cell i: the tiles valid on all six sides, in tile-list order. */
  function Options(cfg: Config, g: seq<CellView>, i: nat): seq<Tile3D>
    requires i < |g|
  {
    OptionsUpTo(cfg, g, i, 6)
  }

  lemma {:induction false} OptionsUpToMember(cfg: Config, g: seq<CellView>, i: nat, k: nat, u: Tile3D)
    requires i < |g| && k <= 6
    ensures u in OptionsUpTo(cfg, g, i, k)
        <==> u in cfg.tiles && forall m :: 0 <= m < k ==> u in ValidFor(cfg, g, i, AllDirections[m])
  {
    if k > 0 {
      OptionsUpToMember(cfg, g, i, k - 1, u);
      KeepMember(OptionsUpTo(cfg, g, i, k - 1), ValidFor(cfg, g, i, AllDirections[k - 1]), u);
    }
  }

  /** A tile stays an option exactly when it is a tile and every side accepts it. */
  lemma OptionsMember(cfg: Config, g: seq<CellView>, i: nat, u: Tile3D)
    requires i < |g|
    ensures u in Options(cfg, g, i) <==> u in cfg.tiles && forall d: Direction :: u in ValidFor(cfg, g, i, d)
  {
    OptionsUpToMember(cfg, g, i, 6, u);
    DirectionFacts();
    if u in Options(cfg, g, i) {
      forall d: Direction
        ensures u in ValidFor(cfg, g, i, d)
      {
        assert AllDirections[d.Index()] == d;
      }
    }
  }

  /** A neighbour whose facing side disagrees on being open leaves the cell no option. */
  lemma DisagreementEmpties(cfg: Config, g: seq<CellView>, i: nat, d: Direction, j: int)
    requires i < |g| && 0 <= j < |g|
    requires NeighbourIndex(cfg.dims, g[i].pos, d) == Some(j)
    requires OpenSide(g[j].points, d.Opposite()) != OpenSide(g[i].points, d)
    ensures Options(cfg, g, i) == []
  {
    assert ValidFor(cfg, g, i, d) == [];
    var o := Options(cfg, g, i);
    if o != [] {
      OptionsMember(cfg, g, i, o[0]);
    }
  }

  /**
   * Every new option is backed on each side that has a neighbour: the two
   * facing sides agree on being open, and some option of the neighbour
   * accepts it.
   */
  lemma OptionsSupported(cfg: Config, g: seq<CellView>, i: nat, d: Direction, j: int, u: Tile3D)
    requires i < |g| && 0 <= j < |g|
    requires NeighbourIndex(cfg.dims, g[i].pos, d) == Some(j)
    requires u in Options(cfg, g, i)
    ensures OpenSide(g[j].points, d.Opposite()) == OpenSide(g[i].points, d)
    ensures exists k :: 0 <= k < |g[j].options| && u in ListAt(AdjAt(cfg, g[j].options[k]), d.Opposite())
  {
    OptionsMember(cfg, g, i, u);
    assert u in ValidFor(cfg, g, i, d);
    ConcatMember(cfg, g[j].options, d.Opposite(), u);
  }

  /** On a side without a neighbour, a new option was an option before and accepts the first tile there. */
  lemma OptionsAtBorder(cfg: Config, g: seq<CellView>, i: nat, d: Direction, u: Tile3D)
    requires i < |g|
    requires NeighbourIndex(cfg.dims, g[i].pos, d) == None
    requires u in Options(cfg, g, i)
    ensures u in g[i].options && cfg.tiles != [] && cfg.tiles[0] in ListAt(AdjAt(cfg, u), d)
  {
    OptionsMember(cfg, g, i, u);
    assert u in ValidFor(cfg, g, i, d);
    BlankFallbackMember(cfg, g[i].options, d, u);
  }

  // ------------------------------------------------------------- the sweep

  /**
   * The distance test of the sweep: |p| - |q| > 1 for the Euclidean lengths
   * of the two position vectors, decided on their squares P and Q without a
   * square root.
   */
  predicate FarFromLast(p: Pos, q: Pos): (r: bool)
    ensures r ==> p.x * p.x + p.y * p.y + p.z * p.z > q.x * q.x + q.y * q.y + q.z * q.z + 1
    ensures q == Pos(0, 0, 0) ==> (r <==> p.x * p.x + p.y * p.y + p.z * p.z > 1)
  {
    var P := p.x * p.x + p.y * p.y + p.z * p.z;
    var Q := q.x * q.x + q.y * q.y + q.z * q.z;
    P - Q - 1 > 0 && (P - Q - 1) * (P - Q - 1) > 4 * Q
  }

  /** FarFromLast is the length test: for lengths a and b of the two vectors, a - b > 1. */
  lemma FarFromLastIsLengthTest(p: Pos, q: Pos, a: real, b: real)
    requires a >= 0.0 && b >= 0.0
    requires a * a == (p.x * p.x + p.y * p.y + p.z * p.z) as real
    requires b * b == (q.x * q.x + q.y * q.y + q.z * q.z) as real
    ensures FarFromLast(p, q) <==> a - b > 1.0
  {
    var P := p.x * p.x + p.y * p.y + p.z * p.z;
    var Q := q.x * q.x + q.y * q.y + q.z * q.z;
    var D := P - Q - 1;
    IntProduct(D);
    LengthTest(a, b, P as real, Q as real);
  }

  /** Squaring commutes with the conversion to real. */
  lemma IntProduct(D: int)
    ensures (D * D) as real == (D as real) * (D as real)
    decreases if D < 0 then 1 - D else D
  {
    if D < 0 {
      IntProduct(-D);
    } else if D > 0 {
      IntProduct(D - 1);
      assert D * D == (D - 1) * (D - 1) + 2 * D - 1;
    }
  }

  /** The comparison of two lengths a - b > 1 decided on their squares. */
  lemma LengthTest(a: real, b: real, P: real, Q: real)
    requires a >= 0.0 && b >= 0.0 && a * a == P && b * b == Q
    ensures (P - Q - 1.0 > 0.0 && (P - Q - 1.0) * (P - Q - 1.0) > 4.0 * Q) <==> a - b > 1.0
  {
    var D := P - Q - 1.0;
    var x, y := a - b - 1.0, a + b + 1.0;
    var u, v := D - 2.0 * b, D + 2.0 * b;
    assert D == x * y + 2.0 * b;
    assert D * D - 4.0 * Q == u * v;
    ProductSign(x, y);
    if a - b > 1.0 {
      ProductSign(u, v);
    }
    if D > 0.0 && D * D > 4.0 * Q {
      ProductSign(u, v);
    }
  }

  /** With a positive second factor, a product has the sign of the first. */
  lemma ProductSign(x: real, y: real)
    requires y > 0.0
    ensures x * y > 0.0 <==> x > 0.0
  {
    if x > 0.0 {
      assert x * y > 0.0;
    } else {
      assert x * y <= 0.0;
    }
  }

  /** Whether the sweep leaves a cell as it is. */
  predicate Skipped(cfg: Config, c: CellView)
  {
    c.collapsed || |OpenSides(c.points)| < 1 || FarFromLast(c.pos, cfg.last)
  }

  /** The sweep's visit of cell i: recompute its options unless it is skipped. */
  function Recompute(cfg: Config, g: seq<CellView>, i: nat): CellView
    requires i < |g|
  {
    if Skipped(cfg, g[i]) then g[i] else g[i].(options := Options(cfg, g, i))
  }

  /**
   * The grid after the sweep has visited cells 0 to n - 1 in index order,
   * each visit seeing the updates of the visits before it.
   */
  function SweepTo(cfg: Config, g: seq<CellView>, n: nat): (r: seq<CellView>)
    requires n <= |g|
    ensures |r| == |g|
  {
    if n == 0 then g
    else
      var s := SweepTo(cfg, g, n - 1);
      s[n - 1 := Recompute(cfg, s, n - 1)]
  }

  /** One whole propagation pass. */
  function Sweep(cfg: Config, g: seq<CellView>): seq<CellView>
  {
    SweepTo(cfg, g, |g|)
  }

  /**
   * The sweep changes only options: it keeps every cell's collapsed flag,
   * counters and position, leaves skipped and not yet visited cells as they
   * were, and gives every other visited cell options drawn from the tile
   * list.
   */
  lemma {:induction false} SweepKeeps(cfg: Config, g: seq<CellView>, n: nat)
    requires n <= |g|
    ensures forall k :: 0 <= k < |g| ==>
      var c := SweepTo(cfg, g, n)[k];
      c.collapsed == g[k].collapsed && c.points == g[k].points && c.pos == g[k].pos
    ensures forall k :: 0 <= k < |g| && (n <= k || Skipped(cfg, g[k])) ==> SweepTo(cfg, g, n)[k] == g[k]
    ensures forall k, u :: 0 <= k < n && !Skipped(cfg, g[k]) && u in SweepTo(cfg, g, n)[k].options ==> u in cfg.tiles
  {
    if n > 0 {
      SweepKeeps(cfg, g, n - 1);
      var s := SweepTo(cfg, g, n - 1);
      if !Skipped(cfg, g[n - 1]) {
        forall u | u in Options(cfg, s, n - 1)
          ensures u in cfg.tiles
        {
          OptionsMember(cfg, s, n - 1, u);
        }
      }
    }
  }

  /** Visits after the m-th leave the first m cells alone. */
  lemma {:induction false} SweepPrefix(cfg: Config, g: seq<CellView>, m: nat, n: nat)
    requires m <= n <= |g|
    ensures SweepTo(cfg, g, n)[..m] == SweepTo(cfg, g, m)[..m]
  {
    if m < n {
      SweepPrefix(cfg, g, m, n - 1);
    }
  }

  /**
   * The sweep works in place: cell k is recomputed on a grid whose cells
   * before k already hold their final values and whose cells from k on
   * still hold their old ones.
   */
  lemma SweepInPlace(cfg: Config, g: seq<CellView>, n: nat, k: nat)
    requires k < n <= |g|
    ensures SweepTo(cfg, g, k) == SweepTo(cfg, g, n)[..k] + g[k..]
    ensures SweepTo(cfg, g, n)[k] == Recompute(cfg, SweepTo(cfg, g, n)[..k] + g[k..], k)
  {
    var s := SweepTo(cfg, g, k);
    SweepKeeps(cfg, g, k);
    SweepPrefix(cfg, g, k, n);
    assert s[k..] == g[k..];
    assert s == s[..k] + s[k..];
    SweepPrefix(cfg, g, k + 1, n);
    assert SweepTo(cfg, g, n)[k] == SweepTo(cfg, g, n)[..k + 1][k];
  }
}
