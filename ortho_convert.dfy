/**
  The tile loop of the convert script's `convert`: the bounding box is
  turned into inclusive tile ranges, and every tile (x, y) of those ranges,
  x-major, is fetched and georeferenced to its own bounds. A tile whose
  fetch or georeferencing raises `OSError` is reported and skipped.

  The fetch and the GDAL calls are abstract: `failing` is the set of tiles
  for which they raise, and a successful tile is recorded as a `Job`
  holding what `fetch_tile` returned and the bounds handed to GDAL.
*/
module OrthoConvert {
  import opened Grid
  import opened SlippyTiles
  import opened TileSource

  /** One georeferenced tile: where its image came from and the bounds it was given. */
  datatype Job = Job(tile: Cell, fetched: TileFetch, bounds: seq<real>)

  /** The work `convert` does for tile `t` = Cell(x, y) when nothing raises. */
  function JobFor(t: Cell, zoom: nat, source: string, tempDir: string, latOfRel: real -> real): Job
  {
    Job(t, FetchTile(t.major, t.minor, zoom, source, tempDir), TileEdges(t.major, t.minor, zoom, latOfRel))
  }

  /** The body of the `try` block as a function of the tile. */
  function TileWork(zoom: nat, source: string, tempDir: string, latOfRel: real -> real): Cell -> Job
  {
    t => JobFor(t, zoom, source, tempDir, latOfRel)
  }

  /** The jobs `job` produces for a sequence of tiles, in order. */
  function JobsFor(tiles: seq<Cell>, job: Cell -> Job): (r: seq<Job>)
    ensures |r| == |tiles|
  {
    if tiles == [] then [] else JobsFor(tiles[..|tiles| - 1], job) + [job(tiles[|tiles| - 1])]
  }

  /** What the tile loop has produced so far: the jobs done and the tiles reported as failed. */
  datatype Outcome = Outcome(jobs: seq<Job>, failed: seq<Cell>)

  /** The `try`/`except OSError` body for tile `t`. */
  function Attempt(o: Outcome, t: Cell, failing: set<Cell>, job: Cell -> Job): Outcome
  {
    if t in failing then o.(failed := o.failed + [t]) else o.(jobs := o.jobs + [job(t)])
  }

  /** The outcome after the loop body has run on each tile of `tiles` in turn. */
  function Run(tiles: seq<Cell>, failing: set<Cell>, job: Cell -> Job): Outcome
  {
    if tiles == [] then Outcome([], [])
    else Attempt(Run(tiles[..|tiles| - 1], failing, job), tiles[|tiles| - 1], failing, job)
  }

  /** The tiles of the inclusive ranges `x_min..x_max` by `y_min..y_max`, x-major. */
  function GridTiles(g: TileGrid): seq<Cell>
  {
    RowMajor(g.xMin, g.xMax + 1, g.yMin, g.yMax + 1)
  }

  /** The tile count in the message printed before the loop. */
  function PrintedTileCount(g: TileGrid): int
  {
    (g.xMax - g.xMin + 1) * (g.yMax - g.yMin + 1)
  }

  /** The tiles the inclusive-range loops have visited on reaching row y of column x. */
  function VisitedInclusive(g: TileGrid, x: int, y: int): seq<Cell>
  {
    RowMajor(g.xMin, x, g.yMin, g.yMax + 1) + Line(x, g.yMin, y)
  }

  // ---------------------------------------------------------------------------
  // The loop
  // ---------------------------------------------------------------------------

  /**
    `convert` from the computation of the tile ranges to the end of the
    tile loop. `jobs` are the tiles fetched and georeferenced, in loop
    order; `failed` are the tiles reported as "failed to get".
  */
  method Convert(source: string, lonMin: real, latMin: real, lonMax: real, latMax: real, zoom: nat,
                 tempDir: string, failing: set<Cell>, mercY: real -> real, latOfRel: real -> real)
    returns (grid: TileGrid, jobs: seq<Job>, failed: seq<Cell>)
    ensures grid == BBoxToXYZ(lonMin, lonMax, latMin, latMax, zoom, mercY)
    ensures Outcome(jobs, failed) == Run(GridTiles(grid), failing, TileWork(zoom, source, tempDir, latOfRel))
  {
    grid := BBoxToXYZ(lonMin, lonMax, latMin, latMax, zoom, mercY);
    jobs, failed := ConvertTiles(grid, TileWork(zoom, source, tempDir, latOfRel), failing);
  }

  /** The outer loop of `convert`: every column x of the grid, in increasing x. */
  method ConvertTiles(grid: TileGrid, job: Cell -> Job, failing: set<Cell>) returns (jobs: seq<Job>, failed: seq<Cell>)
    ensures Outcome(jobs, failed) == Run(GridTiles(grid), failing, job)
  {
    jobs, failed := [], [];
    var x := grid.xMin;
    while x <= grid.xMax
      invariant grid.xMin <= x && (x <= grid.xMax + 1 || x == grid.xMin)
      invariant Outcome(jobs, failed) == Run(VisitedInclusive(grid, x, grid.yMin), failing, job)
    {
      jobs, failed := ConvertColumn(grid, x, job, failing, jobs, failed);
      x := x + 1;
    }
    assert VisitedInclusive(grid, x, grid.yMin) == GridTiles(grid);
  }

  /** The inner loop of `convert`: every tile y of column x, in increasing y; `job` is the work done for a tile. */
  method ConvertColumn(grid: TileGrid, x: int, job: Cell -> Job, failing: set<Cell>, jobs0: seq<Job>, failed0: seq<Cell>)
    returns (jobs: seq<Job>, failed: seq<Cell>)
    requires grid.xMin <= x
    requires Outcome(jobs0, failed0) == Run(VisitedInclusive(grid, x, grid.yMin), failing, job)
    ensures Outcome(jobs, failed) == Run(VisitedInclusive(grid, x + 1, grid.yMin), failing, job)
  {
    jobs, failed := jobs0, failed0;
    var y := grid.yMin;
    while y <= grid.yMax
      invariant grid.yMin <= y && (y <= grid.yMax + 1 || y == grid.yMin)
      invariant Outcome(jobs, failed) == Run(VisitedInclusive(grid, x, y), failing, job)
    {
      var tile := Cell(x, y);
      RunNext(grid, x, y, failing, job);
      if tile in failing {
        failed := failed + [tile];
      } else {
        jobs := jobs + [job(tile)];
      }
      y := y + 1;
    }
    NextColumn(grid, x, y);
  }

  /** Visiting tile (x, y) runs the loop body once more. */
  lemma RunNext(g: TileGrid, x: int, y: int, failing: set<Cell>, job: Cell -> Job)
    requires g.yMin <= y
    ensures Run(VisitedInclusive(g, x, y + 1), failing, job) == Attempt(Run(VisitedInclusive(g, x, y), failing, job), Cell(x, y), failing, job)
  {
    var s := VisitedInclusive(g, x, y);
    assert VisitedInclusive(g, x, y + 1) == s + [Cell(x, y)];
    assert (s + [Cell(x, y)])[..|s|] == s;
  }

  /** The end of column x is the start of column x + 1. */
  lemma NextColumn(g: TileGrid, x: int, y: int)
    requires g.xMin <= x && g.yMin <= y && (y == g.yMax + 1 || (y == g.yMin && g.yMax < g.yMin))
    ensures VisitedInclusive(g, x, y) == VisitedInclusive(g, x + 1, g.yMin)
  {
  }

  /**
    The loop splits the tiles it visits: the jobs are the work done for the
    tiles outside `failing`, the failures are the tiles inside it, both in
    loop order.
  */
  lemma {:induction false} RunSplitsTiles(tiles: seq<Cell>, failing: set<Cell>, job: Cell -> Job)
    ensures Run(tiles, failing, job).jobs == JobsFor(Without(tiles, failing), job)
    ensures Run(tiles, failing, job).failed == Within(tiles, failing)
  {
    if tiles != [] {
      var init := tiles[..|tiles| - 1];
      var t := tiles[|tiles| - 1];
      assert tiles == init + [t];
      RunSplitsTiles(init, failing, job);
      WithoutSnoc(init, t, failing);
      WithinSnoc(init, t, failing);
      JobsForSnoc(Without(init, failing), t, job);
    }
  }

  lemma JobsForSnoc(s: seq<Cell>, t: Cell, job: Cell -> Job)
    ensures JobsFor(s + [t], job) == JobsFor(s, job) + [job(t)]
  {
    assert (s + [t])[..|s|] == s;
  }

  // ---------------------------------------------------------------------------
  // Properties
  // ---------------------------------------------------------------------------

  /** The loop visits each tile of the inclusive ranges exactly once, x-major. */
  lemma GridTilesExactlyOnce(g: TileGrid, t: Cell)
    ensures t in GridTiles(g) <==> g.xMin <= t.major <= g.xMax && g.yMin <= t.minor <= g.yMax
    ensures Ordered(GridTiles(g))
  {
    RowMajorMembership(g.xMin, g.xMax + 1, g.yMin, g.yMax + 1, t);
    RowMajorOrdered(g.xMin, g.xMax + 1, g.yMin, g.yMax + 1);
  }

  /** The printed count is the number of tiles the loop visits, whenever both ranges are non-empty or empty by one. */
  lemma PrintedCountIsVisited(g: TileGrid)
    requires g.xMin <= g.xMax + 1 && g.yMin <= g.yMax + 1
    ensures |GridTiles(g)| == PrintedTileCount(g)
  {
    RowMajorLength(g.xMin, g.xMax + 1, g.yMin, g.yMax + 1);
  }

  /**
    For a bounding box given west-to-east and south-to-north, with a latitude
    transform that decreases northwards, the printed count is the number of
    tiles visited.
  */
  lemma BBoxPrintedCount(lonMin: real, latMin: real, lonMax: real, latMax: real, zoom: nat, mercY: real -> real)
    requires lonMin <= lonMax && latMin <= latMax
    requires forall a, b :: a <= b ==> mercY(b) <= mercY(a)
    ensures var g := BBoxToXYZ(lonMin, lonMax, latMin, latMax, zoom, mercY);
      |GridTiles(g)| == PrintedTileCount(g) >= 1
  {
    var g := BBoxToXYZ(lonMin, lonMax, latMin, latMax, zoom, mercY);
    BBoxColumnsOrdered(lonMin, lonMax, latMin, latMax, zoom, mercY);
    BBoxRowsFromOppositeCorners(lonMin, lonMax, latMin, latMax, zoom, mercY);
    PrintedCountIsVisited(g);
    assert g.xMax - g.xMin + 1 >= 1 && g.yMax - g.yMin + 1 >= 1;
  }

  /** A product of two positive factors does not shrink when neither factor does. */
  lemma ProductGrows(a: int, b: int, c: int, d: int)
    requires 1 <= a <= c && 1 <= b <= d
    ensures a * b <= c * d
  {
    assert a * b <= c * b;
    assert c * b <= c * d;
  }

  /**
    Zooming in by one level never lowers the number of tiles `convert`
    visits for a fixed bounding box.
  */
  lemma ZoomInVisitsNoFewer(lonMin: real, latMin: real, lonMax: real, latMax: real, zoom: nat, mercY: real -> real)
    requires lonMin <= lonMax && latMin <= latMax
    requires forall a, b :: a <= b ==> mercY(b) <= mercY(a)
    ensures |GridTiles(BBoxToXYZ(lonMin, lonMax, latMin, latMax, zoom, mercY))|
            <= |GridTiles(BBoxToXYZ(lonMin, lonMax, latMin, latMax, zoom + 1, mercY))|
  {
    var g := BBoxToXYZ(lonMin, lonMax, latMin, latMax, zoom, mercY);
    var h := BBoxToXYZ(lonMin, lonMax, latMin, latMax, zoom + 1, mercY);
    BBoxColumnsOrdered(lonMin, lonMax, latMin, latMax, zoom, mercY);
    BBoxRowsFromOppositeCorners(lonMin, lonMax, latMin, latMax, zoom, mercY);
    BBoxColumnsGrowWithZoom(lonMin, lonMax, latMin, latMax, zoom, mercY);
    BBoxRowsGrowWithZoom(lonMin, lonMax, latMin, latMax, zoom, mercY);
    WiderGridVisitsMore(g, h);
  }

  /** A grid at least as wide and as tall as a non-empty grid has at least as many tiles. */
  lemma WiderGridVisitsMore(g: TileGrid, h: TileGrid)
    requires g.xMin <= g.xMax && g.yMin <= g.yMax
    requires g.xMax - g.xMin <= h.xMax - h.xMin && g.yMax - g.yMin <= h.yMax - h.yMin
    ensures |GridTiles(g)| <= |GridTiles(h)|
  {
    PrintedCountIsVisited(g);
    PrintedCountIsVisited(h);
    ProductGrows(g.xMax - g.xMin + 1, g.yMax - g.yMin + 1, h.xMax - h.xMin + 1, h.yMax - h.yMin + 1);
  }

  /**
    Every visited tile ends up as exactly one of a job or a failure: the
    jobs are the tiles outside `failing`, in loop order, each fetched and
    georeferenced to its own `tile_edges` bounds.
  */
  lemma JobsPartitionTiles(g: TileGrid, failing: set<Cell>, zoom: nat, source: string, tempDir: string,
                           latOfRel: real -> real, t: Cell)
    ensures var o := Run(GridTiles(g), failing, TileWork(zoom, source, tempDir, latOfRel));
      var jobs := o.jobs;
      var failed := o.failed;
      && jobs == JobsFor(Without(GridTiles(g), failing), TileWork(zoom, source, tempDir, latOfRel))
      && failed == Within(GridTiles(g), failing)
      && |jobs| + |failed| == |GridTiles(g)|
      && (t in Without(GridTiles(g), failing) <==> t in GridTiles(g) && t !in failing)
      && Ordered(Without(GridTiles(g), failing))
  {
    RowMajorOrdered(g.xMin, g.xMax + 1, g.yMin, g.yMax + 1);
    RunPartitions(GridTiles(g), failing, TileWork(zoom, source, tempDir, latOfRel), t);
  }

  /** `JobsPartitionTiles` for any ordered walk and any per-tile work. */
  lemma RunPartitions(tiles: seq<Cell>, failing: set<Cell>, job: Cell -> Job, t: Cell)
    requires Ordered(tiles)
    ensures var o := Run(tiles, failing, job);
      && o.jobs == JobsFor(Without(tiles, failing), job)
      && o.failed == Within(tiles, failing)
      && |o.jobs| + |o.failed| == |tiles|
      && (t in Without(tiles, failing) <==> t in tiles && t !in failing)
      && Ordered(Without(tiles, failing))
  {
    RunSplitsTiles(tiles, failing, job);
    WithoutWithinLength(tiles, failing);
    WithoutMembers(tiles, failing, t);
    WithoutOrdered(tiles, failing);
  }

  /** The i-th job is the work done for the i-th tile. */
  lemma {:induction false} JobsForAt(tiles: seq<Cell>, job: Cell -> Job, i: int)
    requires 0 <= i < |tiles|
    ensures JobsFor(tiles, job)[i] == job(tiles[i])
  {
    if i < |tiles| - 1 {
      JobsForAt(tiles[..|tiles| - 1], job, i);
    }
  }

  /**
    Each job is for its own tile and carries what `fetch_tile` returned for
    it and the `tile_edges` bounds `georeference_raster_tile` gives it.
  */
  lemma JobsAreTheirTiles(tiles: seq<Cell>, zoom: nat, source: string, tempDir: string,
                          latOfRel: real -> real, i: int)
    requires 0 <= i < |tiles|
    ensures var j := JobsFor(tiles, TileWork(zoom, source, tempDir, latOfRel))[i];
      && j.tile == tiles[i]
      && j.fetched == FetchTile(tiles[i].major, tiles[i].minor, zoom, source, tempDir)
      && j.bounds == TileEdges(tiles[i].major, tiles[i].minor, zoom, latOfRel)
  {
    JobsForAt(tiles, TileWork(zoom, source, tempDir, latOfRel), i);
  }
}
