/**
  The WMTS download script: turning a bounding box into a half-open range
  of tile columns and rows, clamping it to the tile-matrix limits the server
  advertises, and walking the tiles row by row, skipping tiles already on
  disk and stopping after a request limit.

  Coordinates are exact reals. A tile is a `Cell(row, col)`: rows are the
  outer loop, columns the inner one.
*/
module WmtsDownload {
  import opened Wrappers
  import opened Grid

  /** The standardized rendering pixel size, 0.28 mm (section 6.1 of OGC WMTS 1.0.0, OGC 07-057r7). */
  const StandardPixelSize: real := 0.00028

  /** The parts of a WMTS tile matrix the range computation reads. */
  datatype TileMatrix = TileMatrix(scaleDenominator: real, topLeftX: real, topLeftY: real, tileWidth: int)

  /** A bounding box as given on the command line: bbox[0], bbox[1], bbox[2], bbox[3]. */
  datatype BBox = BBox(x0: real, y0: real, x1: real, y1: real)

  /** Columns [minCol, maxCol) and rows [minRow, maxRow), as the loops use them. */
  datatype TileRange = TileRange(minCol: int, maxCol: int, minRow: int, maxRow: int)

  /** Ground width of one tile: the pixel size `a` times the tile width. */
  function ColumnSpan(m: TileMatrix): real
  {
    m.scaleDenominator * StandardPixelSize * (m.tileWidth as real)
  }

  /** Rows use the negated pixel size `e`, because rows count downwards from the top-left corner. */
  function RowSpan(m: TileMatrix): real
  {
    m.scaleDenominator * -StandardPixelSize * (m.tileWidth as real)
  }

  function ColumnOf(m: TileMatrix, x: real): int
    requires ColumnSpan(m) != 0.0
  {
    ((x - m.topLeftX) / ColumnSpan(m)).Floor
  }

  function RowOf(m: TileMatrix, y: real): int
    requires RowSpan(m) != 0.0
  {
    ((y - m.topLeftY) / RowSpan(m)).Floor
  }

  /**
    The tile range covering a bounding box. `None` stands for the division by
    zero the source raises when the scale denominator or the tile width is zero.
  */
  function FilterRowColsByBBox(m: TileMatrix, b: BBox): (r: Option<TileRange>)
    ensures r.Some? <==> m.scaleDenominator != 0.0 && m.tileWidth != 0
    ensures r.Some? ==> r.value.minCol < r.value.maxCol && r.value.minRow < r.value.maxRow
  {
    if ColumnSpan(m) == 0.0 then None
    else
      var colOrig, rowOrig := ColumnOf(m, b.x0), RowOf(m, b.y0);
      var colDest, rowDest := ColumnOf(m, b.x1), RowOf(m, b.y1);
      var (c0, c1) := if colOrig > colDest then (colDest, colOrig) else (colOrig, colDest);
      var (r0, r1) := if rowOrig > rowDest then (rowDest, rowOrig) else (rowOrig, rowDest);
      Some(TileRange(c0, c1 + 1, r0, r1 + 1))
  }

  /** The clamp block: each end of the bounding-box range is kept only where it lies inside the limits. */
  function Clamp(limits: TileRange, f: TileRange): (r: TileRange)
    ensures Inside(r, limits)
    ensures Inside(f, limits) ==> r == f
  {
    TileRange(
      if f.minCol >= limits.minCol then f.minCol else limits.minCol,
      if f.maxCol <= limits.maxCol then f.maxCol else limits.maxCol,
      if f.minRow >= limits.minRow then f.minRow else limits.minRow,
      if f.maxRow <= limits.maxRow then f.maxRow else limits.maxRow)
  }

  /** The range the loops walk: the limits, or the bounding-box range clamped to them. */
  function SelectedRange(m: TileMatrix, limits: TileRange, bbox: Option<BBox>): Option<TileRange>
  {
    match bbox
    case None => Some(limits)
    case Some(b) =>
      match FilterRowColsByBBox(m, b)
      case None => None
      case Some(f) => Some(Clamp(limits, f))
  }

  predicate InRange(r: TileRange, t: Cell)
  {
    InRect(t, r.minRow, r.maxRow, r.minCol, r.maxCol)
  }

  predicate Inside(r: TileRange, limits: TileRange)
  {
    limits.minCol <= r.minCol && r.maxCol <= limits.maxCol &&
    limits.minRow <= r.minRow && r.maxRow <= limits.maxRow
  }

  /** The tiles of a range in the order the nested loops visit them. */
  function Tiles(r: TileRange): seq<Cell>
  {
    RowMajor(r.minRow, r.maxRow, r.minCol, r.maxCol)
  }

  /** The tile count the script reports. */
  function TotalTiles(r: TileRange): int
  {
    (r.maxRow - r.minRow) * (r.maxCol - r.minCol)
  }

  // ---------------------------------------------------------------------------
  // The download loop, as a function of the tiles visited so far.
  // ---------------------------------------------------------------------------

  /**
    The loop's counters. `log` is the sequence of tiles downloaded (the
    abstract download appends to it); `stopped` records that the request
    limit broke out of both loops.
  */
  datatype Progress = Progress(downloadCount: int, skipCount: int, log: seq<Cell>, stopped: bool)

  function Start(): Progress
  {
    Progress(1, 0, [], false)
  }

  /** One iteration of the inner loop body. */
  function Step(p: Progress, t: Cell, existing: set<Cell>, limitRequests: int): Progress
  {
    if p.stopped then p
    else if t in existing then p.(skipCount := p.skipCount + 1)
    else if limitRequests != 0 && p.downloadCount >= limitRequests then p.(log := p.log + [t], stopped := true)
    else p.(log := p.log + [t], downloadCount := p.downloadCount + 1)
  }

  /** The counters after the loop body has run on each tile of `tiles` in turn. */
  function Walk(tiles: seq<Cell>, existing: set<Cell>, limitRequests: int): Progress
  {
    if tiles == [] then Start()
    else Step(Walk(tiles[..|tiles| - 1], existing, limitRequests), tiles[|tiles| - 1], existing, limitRequests)
  }

  /** The number of downloads after which a nonzero limit breaks the loops: `limit` if positive, else 1. */
  function Cap(limitRequests: int): nat
  {
    if limitRequests > 0 then limitRequests else 1
  }

  // ---------------------------------------------------------------------------
  // Properties of the range computation.
  // ---------------------------------------------------------------------------

  /** `v` lies between `e0` and `e1`, whichever of the two is larger. */
  predicate Between(v: real, e0: real, e1: real)
  {
    (e0 <= v <= e1) || (e1 <= v <= e0)
  }

  lemma FloorOfQuotientMonotone(a: real, b: real, d: real)
    requires a <= b && d != 0.0
    ensures d > 0.0 ==> (a / d).Floor <= (b / d).Floor
    ensures d < 0.0 ==> (b / d).Floor <= (a / d).Floor
  {
    if d > 0.0 {
      assert b / d - a / d == (b - a) / d;
      assert (b - a) / d >= 0.0;
    } else {
      assert a / d - b / d == (b - a) / -d;
      assert (b - a) / -d >= 0.0;
    }
  }

  /** Floored tile index of a point between two ends lies between the ends' indices. */
  lemma FloorIndexBetween(v: real, e0: real, e1: real, origin: real, d: real)
    requires Between(v, e0, e1) && d != 0.0
    ensures var i, i0, i1 := ((v - origin) / d).Floor, ((e0 - origin) / d).Floor, ((e1 - origin) / d).Floor;
            (i0 <= i <= i1) || (i1 <= i <= i0)
  {
    if e0 <= v <= e1 {
      FloorOfQuotientMonotone(e0 - origin, v - origin, d);
      FloorOfQuotientMonotone(v - origin, e1 - origin, d);
    } else {
      FloorOfQuotientMonotone(e1 - origin, v - origin, d);
      FloorOfQuotientMonotone(v - origin, e0 - origin, d);
    }
  }

  /** The range is defined exactly when the tile spans are nonzero, and rows use the negated span. */
  lemma SpansNonzero(m: TileMatrix)
    ensures RowSpan(m) == -ColumnSpan(m)
    ensures ColumnSpan(m) != 0.0 <==> m.scaleDenominator != 0.0 && m.tileWidth != 0
  {
  }

  /**
    The range is the smallest half-open range holding the tile indices of
    both corners: each corner's index lies in it, the first column is one
    corner's column and the last column is the other's (likewise rows).
  */
  lemma FilterIsTightest(m: TileMatrix, b: BBox)
    requires m.scaleDenominator != 0.0 && m.tileWidth != 0
    ensures FilterRowColsByBBox(m, b).Some?
    ensures var r := FilterRowColsByBBox(m, b).value;
      && InRange(r, Cell(RowOf(m, b.y0), ColumnOf(m, b.x0)))
      && InRange(r, Cell(RowOf(m, b.y1), ColumnOf(m, b.x1)))
      && {r.minCol, r.maxCol - 1} == {ColumnOf(m, b.x0), ColumnOf(m, b.x1)}
      && {r.minRow, r.maxRow - 1} == {RowOf(m, b.y0), RowOf(m, b.y1)}
  {
    SpansNonzero(m);
  }

  /** Swapping the two corners of the bounding box gives the same range. */
  lemma FilterCornerSwap(m: TileMatrix, b: BBox)
    ensures FilterRowColsByBBox(m, BBox(b.x1, b.y1, b.x0, b.y0)) == FilterRowColsByBBox(m, b)
  {
  }

  /** Every point of the bounding box falls in a tile of the range. */
  lemma FilterCoversBBox(m: TileMatrix, b: BBox, x: real, y: real)
    requires m.scaleDenominator != 0.0 && m.tileWidth != 0
    requires Between(x, b.x0, b.x1) && Between(y, b.y0, b.y1)
    ensures FilterRowColsByBBox(m, b).Some?
    ensures InRange(FilterRowColsByBBox(m, b).value, Cell(RowOf(m, y), ColumnOf(m, x)))
  {
    SpansNonzero(m);
    FloorIndexBetween(x, b.x0, b.x1, m.topLeftX, ColumnSpan(m));
    FloorIndexBetween(y, b.y0, b.y1, m.topLeftY, RowSpan(m));
  }

  /** With a positive scale, columns grow eastward and rows grow southward (downward in y). */
  lemma TileIndexDirections(m: TileMatrix, x: real, x': real, y: real, y': real)
    requires m.scaleDenominator > 0.0 && m.tileWidth > 0
    requires x <= x' && y <= y'
    ensures ColumnOf(m, x) <= ColumnOf(m, x')
    ensures RowOf(m, y') <= RowOf(m, y)
  {
    assert ColumnSpan(m) > 0.0;
    FloorOfQuotientMonotone(x - m.topLeftX, x' - m.topLeftX, ColumnSpan(m));
    FloorOfQuotientMonotone(y - m.topLeftY, y' - m.topLeftY, RowSpan(m));
  }

  /** The clamped range holds exactly the tiles in both the bounding-box range and the limits. */
  lemma ClampIsIntersection(limits: TileRange, f: TileRange, t: Cell)
    ensures InRange(Clamp(limits, f), t) <==> InRange(f, t) && InRange(limits, t)
  {
  }

  /** The reported total is the number of tiles the loops visit, when the range is not inverted. */
  lemma TotalTilesCountsVisits(r: TileRange)
    requires r.minRow <= r.maxRow && r.minCol <= r.maxCol
    ensures TotalTiles(r) == |Tiles(r)|
  {
    RowMajorLength(r.minRow, r.maxRow, r.minCol, r.maxCol);
  }

  /**
    A bounding-box range lying wholly past the limits' last row and column
    clamps to a range inverted on both axes: the loops visit nothing, yet
    the reported total, a product of two negative widths, is positive.
  */
  lemma ClampPastLimitsInverts(limits: TileRange, f: TileRange)
    requires limits.minCol <= limits.maxCol < f.minCol <= f.maxCol
    requires limits.minRow <= limits.maxRow < f.minRow <= f.maxRow
    ensures Tiles(Clamp(limits, f)) == []
    ensures TotalTiles(Clamp(limits, f)) > 0
  {
    var r := Clamp(limits, f);
    assert r.maxRow - r.minRow < 0 && r.maxCol - r.minCol < 0;
    assert (r.minRow - r.maxRow) * (r.minCol - r.maxCol) > 0;
  }

  /**
    The loops run up to but not including `max_row` and `max_col`, so the
    tiles of the limits' last row and last column are never visited.
  */
  lemma UpperLimitsExcluded(r: TileRange, row: int, col: int)
    ensures Cell(r.maxRow, col) !in Tiles(r)
    ensures Cell(row, r.maxCol) !in Tiles(r)
  {
    RowMajorMembership(r.minRow, r.maxRow, r.minCol, r.maxCol, Cell(r.maxRow, col));
    RowMajorMembership(r.minRow, r.maxRow, r.minCol, r.maxCol, Cell(row, r.maxCol));
  }

  // ---------------------------------------------------------------------------
  // Properties of the download loop.
  // ---------------------------------------------------------------------------

  /** Once the limit has broken the loops, no later tile changes anything. */
  lemma {:induction false} WalkStaysStopped(a: seq<Cell>, b: seq<Cell>, existing: set<Cell>, limitRequests: int)
    requires a <= b && Walk(a, existing, limitRequests).stopped
    ensures Walk(b, existing, limitRequests) == Walk(a, existing, limitRequests)
    decreases |b|
  {
    if |a| < |b| {
      var init := b[..|b| - 1];
      assert a <= init;
      WalkStaysStopped(a, init, existing, limitRequests);
    } else {
      assert a == b;
    }
  }

  /** The counters before the limit is hit, after visiting `tiles`. */
  ghost predicate Running(p: Progress, tiles: seq<Cell>, existing: set<Cell>, limitRequests: int)
  {
    && !p.stopped
    && p.log == Without(tiles, existing)
    && p.downloadCount == |p.log| + 1
    && p.skipCount == |Within(tiles, existing)|
    && (limitRequests == 0 || |p.log| < Cap(limitRequests))
  }

  /** The counters once the limit has been hit, within the first `k` tiles of `tiles`. */
  ghost predicate StoppedAt(p: Progress, tiles: seq<Cell>, k: int, existing: set<Cell>, limitRequests: int)
  {
    && p.stopped
    && limitRequests != 0
    && 0 < k <= |tiles| && tiles[k - 1] !in existing
    && |p.log| == Cap(limitRequests)
    && p.downloadCount == Cap(limitRequests)
    && p.log == Without(tiles[..k], existing)
    && p.skipCount == |Within(tiles[..k], existing)|
  }

  ghost predicate Reached(p: Progress, tiles: seq<Cell>, existing: set<Cell>, limitRequests: int)
  {
    Running(p, tiles, existing, limitRequests) ||
    exists k :: StoppedAt(p, tiles, k, existing, limitRequests)
  }

  lemma RunningStep(p: Progress, tiles: seq<Cell>, t: Cell, existing: set<Cell>, limitRequests: int)
    requires Running(p, tiles, existing, limitRequests)
    ensures var p', tiles' := Step(p, t, existing, limitRequests), tiles + [t];
      Running(p', tiles', existing, limitRequests) || StoppedAt(p', tiles', |tiles'|, existing, limitRequests)
  {
    var tiles' := tiles + [t];
    assert tiles'[..|tiles'| - 1] == tiles;
    assert tiles'[..|tiles'|] == tiles';
  }

  lemma StoppedStep(p: Progress, tiles: seq<Cell>, k: int, t: Cell, existing: set<Cell>, limitRequests: int)
    requires StoppedAt(p, tiles, k, existing, limitRequests)
    ensures Step(p, t, existing, limitRequests) == p
    ensures StoppedAt(p, tiles + [t], k, existing, limitRequests)
  {
    assert (tiles + [t])[..k] == tiles[..k];
  }

  /**
    What the counters hold after any prefix of the walk. Before the limit is
    hit, every tile not on disk has been downloaded in order,
    `downloadCount` is one more than the number of downloads and
    `skipCount` is the number of tiles found on disk. Once it is hit,
    exactly `Cap(limitRequests)` tiles were downloaded, and the counters
    are those of the prefix that ends with the last download.
  */
  lemma {:induction false} WalkInvariant(tiles: seq<Cell>, existing: set<Cell>, limitRequests: int)
    ensures Reached(Walk(tiles, existing, limitRequests), tiles, existing, limitRequests)
  {
    if tiles == [] {
      assert Running(Start(), tiles, existing, limitRequests);
    } else {
      var init, t := tiles[..|tiles| - 1], tiles[|tiles| - 1];
      assert tiles == init + [t];
      WalkInvariant(init, existing, limitRequests);
      var q := Walk(init, existing, limitRequests);
      if Running(q, init, existing, limitRequests) {
        RunningStep(q, init, t, existing, limitRequests);
      } else {
        var k :| StoppedAt(q, init, k, existing, limitRequests);
        StoppedStep(q, init, k, t, existing, limitRequests);
      }
    }
  }

  /**
    The request limit. With no limit (0), or fewer missing tiles than the
    cap, every missing tile is downloaded in order and `downloadCount` ends
    one above the number of downloads. Otherwise the loops break right after
    the `Cap(limitRequests)`-th download: with a positive limit L, exactly
    the first L missing tiles are downloaded and `downloadCount` ends at L.
    Tiles already on disk never count toward the limit.
  */
  lemma DownloadLimit(tiles: seq<Cell>, existing: set<Cell>, limitRequests: int)
    ensures var p, missing := Walk(tiles, existing, limitRequests), Without(tiles, existing);
      && ((limitRequests == 0 || |missing| < Cap(limitRequests)) ==>
            p == Progress(|missing| + 1, |Within(tiles, existing)|, missing, false))
      && ((limitRequests != 0 && |missing| >= Cap(limitRequests)) ==>
            p.stopped && p.log == missing[..Cap(limitRequests)] && p.downloadCount == Cap(limitRequests))
  {
    WalkInvariant(tiles, existing, limitRequests);
    var p := Walk(tiles, existing, limitRequests);
    var missing := Without(tiles, existing);
    if !Running(p, tiles, existing, limitRequests) {
      var k :| StoppedAt(p, tiles, k, existing, limitRequests);
      var cap := Cap(limitRequests);
      assert p.log == Without(tiles[..k], existing) && |p.log| == cap;
      WithoutPrefix(tiles, existing, k);
      assert p.log == missing[..cap];
    } else {
      assert p.log == missing;
    }
  }

  /**
    The tiles downloaded from a range are tiles of that range, none of them
    already on disk, each downloaded once, in row-major order.
  */
  lemma DownloadLogSound(r: TileRange, existing: set<Cell>, limitRequests: int)
    ensures var log := Walk(Tiles(r), existing, limitRequests).log;
      && Ordered(log)
      && forall t :: t in log ==> InRange(r, t) && t !in existing
  {
    var tiles := Tiles(r);
    var missing := Without(tiles, existing);
    DownloadLimit(tiles, existing, limitRequests);
    RowMajorOrdered(r.minRow, r.maxRow, r.minCol, r.maxCol);
    WithoutOrdered(tiles, existing);
    forall t | t in missing ensures InRange(r, t) && t !in existing {
      WithoutMembers(tiles, existing, t);
      RowMajorMembership(r.minRow, r.maxRow, r.minCol, r.maxCol, t);
    }
    var log := Walk(tiles, existing, limitRequests).log;
    assert log <= missing;
    forall t | t in log ensures t in missing {
      var i :| 0 <= i < |log| && log[i] == t;
      assert missing[i] == t;
    }
  }

  // ---------------------------------------------------------------------------
  // The script's procedure.
  // ---------------------------------------------------------------------------

  /** What one run leaves behind: the range walked, the tiles downloaded and the two counters. */
  datatype Session = Session(range: TileRange, downloaded: seq<Cell>, downloadCount: int, skipCount: int)

  /** The tiles the loops have visited on reaching column `col` of row `row`. */
  function Visited(range: TileRange, row: int, col: int): seq<Cell>
  {
    RowMajor(range.minRow, row, range.minCol, range.maxCol) + Line(row, range.minCol, col)
  }

  /** Visiting the tile at (row, col) applies one more loop body. */
  lemma VisitNext(range: TileRange, row: int, col: int, existing: set<Cell>, limitRequests: int)
    requires range.minCol <= col
    ensures Walk(Visited(range, row, col + 1), existing, limitRequests)
            == Step(Walk(Visited(range, row, col), existing, limitRequests), Cell(row, col), existing, limitRequests)
  {
    var s := Visited(range, row, col);
    assert Visited(range, row, col + 1) == s + [Cell(row, col)];
    assert (s + [Cell(row, col)])[..|s|] == s;
  }

  /** The end of one row is the start of the next. */
  lemma NextRow(range: TileRange, row: int)
    requires range.minRow <= row
    ensures Visited(range, row, range.maxCol) == Visited(range, row + 1, range.minCol)
  {
  }

  /** Whatever the loops have visited inside the range is a prefix of the whole walk. */
  lemma VisitedPrefix(range: TileRange, row: int, col: int)
    requires range.minRow <= row < range.maxRow && col <= range.maxCol
    ensures Visited(range, row, col) <= Tiles(range)
  {
    RowMajorPrefix(range.minRow, range.maxRow, range.minCol, range.maxCol, row, col);
  }

  /**
    The tile-selection and download part of the script's `init`. `existing`
    is the set of tiles already on disk when the loops start; the download
    of a tile is abstracted to appending it to `downloaded`. The result is
    `None` when the range computation raises, which the script's handler
    catches before any download.
  */
  method Init(m: TileMatrix, limits: TileRange, bbox: Option<BBox>, existing: set<Cell>, limitRequests: int)
    returns (session: Option<Session>)
    ensures SelectedRange(m, limits, bbox).None? ==> session.None?
    ensures SelectedRange(m, limits, bbox).Some? ==>
      && session.Some?
      && session.value.range == SelectedRange(m, limits, bbox).value
      && var p := Walk(Tiles(session.value.range), existing, limitRequests);
         session.value.downloaded == p.log
         && session.value.downloadCount == p.downloadCount
         && session.value.skipCount == p.skipCount
  {
    var minCol, maxCol, minRow, maxRow := limits.minCol, limits.maxCol, limits.minRow, limits.maxRow;
    if bbox.Some? {
      var filtered := FilterRowColsByBBox(m, bbox.value);
      if filtered.None? {
        return None;
      }
      var f := filtered.value;
      minCol := if f.minCol >= minCol then f.minCol else minCol;
      maxCol := if f.maxCol <= maxCol then f.maxCol else maxCol;
      minRow := if f.minRow >= minRow then f.minRow else minRow;
      maxRow := if f.maxRow <= maxRow then f.maxRow else maxRow;
    }
    var range := TileRange(minCol, maxCol, minRow, maxRow);
    var downloaded, downloadCount, skipCount := DownloadTiles(range, existing, limitRequests);
    return Some(Session(range, downloaded, downloadCount, skipCount));
  }

  /**
    The nested row/column loop of `init`: skip a tile already on disk,
    otherwise download it, and after a download break out of both loops
    once `downloadCount` has reached a nonzero limit.
  */
  method DownloadTiles(range: TileRange, existing: set<Cell>, limitRequests: int)
    returns (downloaded: seq<Cell>, downloadCount: int, skipCount: int)
    ensures var p := Walk(Tiles(range), existing, limitRequests);
      downloaded == p.log && downloadCount == p.downloadCount && skipCount == p.skipCount
  {
    downloadCount, skipCount, downloaded := 1, 0, [];
    var row := range.minRow;
    while row < range.maxRow
      invariant range.minRow <= row && (row <= range.maxRow || row == range.minRow)
      invariant Walk(Visited(range, row, range.minCol), existing, limitRequests)
                == Progress(downloadCount, skipCount, downloaded, false)
    {
      var broke;
      downloaded, downloadCount, skipCount, broke := DownloadRow(range, row, existing, limitRequests, downloaded, downloadCount, skipCount);
      if broke {
        return;
      }
      NextRow(range, row);
      row := row + 1;
    }
    assert Visited(range, row, range.minCol) == Tiles(range);
  }

  /**
    The column loop of one row. `broke` is the flag of the script's for-else:
    it says the limit was reached and the row loop must stop too.
  */
  method DownloadRow(range: TileRange, row: int, existing: set<Cell>, limitRequests: int,
                     downloaded0: seq<Cell>, downloadCount0: int, skipCount0: int)
    returns (downloaded: seq<Cell>, downloadCount: int, skipCount: int, broke: bool)
    requires range.minRow <= row < range.maxRow
    requires Walk(Visited(range, row, range.minCol), existing, limitRequests)
             == Progress(downloadCount0, skipCount0, downloaded0, false)
    ensures broke ==> Walk(Tiles(range), existing, limitRequests) == Progress(downloadCount, skipCount, downloaded, true)
    ensures !broke ==> Walk(Visited(range, row, range.maxCol), existing, limitRequests)
                       == Progress(downloadCount, skipCount, downloaded, false)
  {
    downloaded, downloadCount, skipCount, broke := downloaded0, downloadCount0, skipCount0, false;
    var col := range.minCol;
    while col < range.maxCol
      invariant range.minCol <= col && (col <= range.maxCol || col == range.minCol)
      invariant Walk(Visited(range, row, col), existing, limitRequests)
                == Progress(downloadCount, skipCount, downloaded, false)
    {
      var tile := Cell(row, col);
      VisitNext(range, row, col, existing, limitRequests);
      if tile in existing {
        skipCount := skipCount + 1;
        col := col + 1;
        continue;
      }
      downloaded := downloaded + [tile];
      if limitRequests != 0 && downloadCount >= limitRequests {
        VisitedPrefix(range, row, col + 1);
        WalkStaysStopped(Visited(range, row, col + 1), Tiles(range), existing, limitRequests);
        return downloaded, downloadCount, skipCount, true;
      }
      downloadCount := downloadCount + 1;
      col := col + 1;
    }
    assert col == range.maxCol || Visited(range, row, col) == Visited(range, row, range.maxCol);
  }
}
