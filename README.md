# Stadtbäume tile pipeline and tree merge, modelled in Dafny

This project models the core of the Konstanz city-tree pipeline:

- **WMTS download** (`ortho_images_download.py`).
  - A bounding box becomes a half-open range of tile columns and rows of a WMTS tile matrix.
  - The range is clamped to the tile-matrix limits the server advertises.
  - Two nested loops walk the range row by row. They skip tiles already on disk, download the rest, and break out of both loops once a request limit is reached.
- **Slippy-map convert** (`ortho_images_convert.py`).
  - The slippy-map tile arithmetic: `latlon_to_xyz`, `bbox_to_xyz`, the tile edges and `tile_edges`.
  - The string templating of the tile source: `str.replace` of `{x}`, `{y}` and `{z}`, the `file:///` prefix, and `http` detection.
  - The loop that fetches and georeferences every tile of the grid and reports the tiles that fail.
- **Tree merge** (`tree_merge.py`).
  - Detections are filtered by score and diameter.
  - Registry trees are joined to detections, and the join is deduplicated per registry tree.
  - The result is partitioned into three row sets (matched, registry only, detection only) with their flags and geometry, then concatenated.

Modules:

| file | module | models |
|---|---|---|
| `wrappers.dfy` | `Wrappers` | `Option` |
| `grid.dfy` | `Grid` | the visiting order of two nested `range` loops, the skip filter |
| `wmts_download.dfy` | `WmtsDownload` | `filter_row_cols_by_bbox`, the clamp, the download loop (`Init`, `DownloadTiles`, `DownloadRow`) |
| `slippy_tiles.dfy` | `SlippyTiles` | `latlon_to_xyz`, `bbox_to_xyz`, `x_to_lon_edges`, `y_to_lat_edges`, `tile_edges` |
| `tile_source.dfy` | `TileSource` | `str.replace`, `str(int)`, the string part of `fetch_tile`, the tile-source argument of `main` |
| `ortho_convert.dfy` | `OrthoConvert` | the tile loop of `convert` (`Convert`, `ConvertTiles`, `ConvertColumn`) |
| `tree_merge.dfy` | `TreeMerge` | the filter, the three tree sets and their concatenation |

How each kind of code is modelled:

- **The two loop nests are methods.** The download nest and the convert nest are imperative `while` loops. Each is proved against a fold over the tiles visited so far:
  - `WmtsDownload.Walk` is the download loop's fold;
  - `OrthoConvert.Run` is the convert loop's fold.

  Each loop nest is split into two methods. The outer method runs the outer loop, and the inner method (`DownloadRow`, `ConvertColumn`) runs one pass of the inner loop. A `broke` result carries Python's `for … else: continue / break` idiom.
- **The rest is functions and lemmas.** The range arithmetic, the tile maths, the templating and the merge are pure code in the source, so they are pure functions here, with lemmas about them.

## Model

| member | source | states |
|---|---|---|
| Grid.Line | ortho_images_download.py:199 | `range(lo, hi)` of the inner loop has `hi - lo` elements, or none when `hi <= lo` |
| Grid.LineAt | ortho_images_download.py:199 | the i-th tile of one pass of the inner loop is column `lo + i` |
| Grid.RowMajor | ortho_images_download.py:197-199 | the cells two nested `range` loops visit, in order; its properties are `RowMajorMembership`, `RowMajorLength`, `RowMajorOrdered` and `RowMajorPrefix` |
| Grid.RowMajorMembership | ortho_images_download.py:197-199 | the two nested loops visit a tile exactly when it lies in the rectangle |
| Grid.RowMajorLength | ortho_images_download.py:197-199 | the loops visit (row span) × (column span) tiles |
| Grid.RowMajorOrdered | ortho_images_download.py:197-199 | the loops visit each tile once, in strictly increasing row-major order |
| Grid.RowMajorPrefix | ortho_images_download.py:230-241 | breaking out after (row, col) leaves a prefix of the full walk |
| Grid.Without | ortho_images_download.py:207-211 | the tiles left after skipping are never more than the tiles visited |
| Grid.WithoutMembers | ortho_images_download.py:207-211 | a tile is kept by the skip exactly when it was visited and is not on disk |
| Grid.WithoutSnoc | ortho_images_download.py:207-211 | one more visited cell is dropped by the skip when it is on disk and appended otherwise |
| Grid.WithinSnoc | ortho_images_download.py:207-211 | one more visited cell is appended to the skipped cells when it is on disk and left out otherwise |
| Grid.WithoutPrefix | ortho_images_download.py:207-211 | skipping over a prefix of the walk gives a prefix of the skipped walk |
| Grid.WithoutOrdered | ortho_images_download.py:207-211 | skipping keeps the visiting order |
| Grid.WithoutWithinLength | ortho_images_download.py:207-211 | every visited tile is either skipped or kept |
| WmtsDownload.ColumnOf | ortho_images_download.py:280-287 | `math.floor((x - topleftcorner[0]) / (a * tilewidth))`, the column of ground x; its properties are `TileIndexDirections`, `FilterIsTightest` and `FilterCoversBBox` |
| WmtsDownload.RowOf | ortho_images_download.py:282-289 | `math.floor((y - topleftcorner[1]) / (e * tilewidth))`, the row of ground y; its properties are `TileIndexDirections`, `FilterIsTightest` and `FilterCoversBBox` |
| WmtsDownload.FilterRowColsByBBox | ortho_images_download.py:278-305 | defined exactly when the scale denominator and tile width are nonzero (otherwise the division raises); the result is a non-empty range in both directions |
| WmtsDownload.Clamp | ortho_images_download.py:188-192 | the clamped range lies inside the limits, and a range already inside the limits is unchanged |
| WmtsDownload.SelectedRange | ortho_images_download.py:182-192 | the range the loops walk: the limits without a bbox, otherwise the bbox range clamped to them; its properties are `Clamp`'s and `ClampIsIntersection`'s |
| WmtsDownload.SpansNonzero | ortho_images_download.py:279-290 | the row span is the negated column span (pixel sizes `a` and `e`); the span is nonzero exactly when the scale and tile width are |
| WmtsDownload.FilterIsTightest | ortho_images_download.py:282-305 | both corner tiles are in the range, and its first and last columns (rows) are exactly the two corners' columns (rows) |
| WmtsDownload.FilterCornerSwap | ortho_images_download.py:292-300 | swapping the two bbox corners gives the same range |
| WmtsDownload.FilterCoversBBox | ortho_images_download.py:282-305 | the tile of every point of the bounding box lies in the range |
| WmtsDownload.TileIndexDirections | ortho_images_download.py:279-290 | with a positive scale, columns grow with x and rows grow as y decreases |
| WmtsDownload.ClampIsIntersection | ortho_images_download.py:188-192 | a tile is in the clamped range exactly when it is in both the bbox range and the limits |
| WmtsDownload.TotalTilesCountsVisits | ortho_images_download.py:266 | the reported total equals the number of tiles the loops visit, for a non-inverted range |
| WmtsDownload.TotalTiles | ortho_images_download.py:266 | the reported total `(max_row - min_row) * (max_col - min_col)`; `TotalTilesCountsVisits` and `ClampPastLimitsInverts` relate it to the tiles visited |
| WmtsDownload.Tiles | ortho_images_download.py:197-199 | the tiles of a range in the order `for row in range(min_row, max_row): for col in range(min_col, max_col)` visits them; its properties are `TotalTilesCountsVisits`, `UpperLimitsExcluded` and `DownloadLogSound` |
| WmtsDownload.ClampPastLimitsInverts | ortho_images_download.py:188-192 | a bbox range wholly past the limits' last row and column clamps to an inverted range: no tile is visited, yet the total reported at line 266 is positive |
| WmtsDownload.UpperLimitsExcluded | ortho_images_download.py:197-199 | the loops never visit the row `maxtilerow` or the column `maxtilecol` read at lines 158-162 |
| WmtsDownload.Start | ortho_images_download.py:98-99 | the counters before the loops: `download_count = 1`, `skip_count = 0`, nothing downloaded; `WalkInvariant` and `DownloadLimit` state the counts reached from it |
| WmtsDownload.Step | ortho_images_download.py:207-241 | one inner-loop body: skip a tile on disk, otherwise download it and either count it or break at the limit; its properties are `RunningStep` and `StoppedStep` |
| WmtsDownload.Walk | ortho_images_download.py:197-241 | the counters after the loop body has run on each tile in turn; its properties are `WalkInvariant`, `DownloadLimit` and `DownloadLogSound` |
| WmtsDownload.WalkStaysStopped | ortho_images_download.py:230-241 | once the limit has broken out, no later tile changes the counters or the downloads |
| WmtsDownload.RunningStep | ortho_images_download.py:207-234 | one loop body, applied before the limit is hit, keeps the running counters or stops exactly at the limit |
| WmtsDownload.StoppedStep | ortho_images_download.py:239-241 | after the break, a further tile changes nothing |
| WmtsDownload.WalkInvariant | ortho_images_download.py:197-241 | after any prefix: downloads are the missing tiles in order, `download_count` is downloads + 1 and `skip_count` the tiles on disk; or exactly the capped number of downloads after the break |
| WmtsDownload.DownloadLimit | ortho_images_download.py:230-234 | with no limit, or fewer missing tiles than the limit, every missing tile is downloaded; otherwise exactly the first `limit` (1 for a negative limit) missing tiles are downloaded and `download_count` equals that number |
| WmtsDownload.DownloadLogSound | ortho_images_download.py:197-228 | every downloaded tile is in the range and not on disk, each is downloaded once, in row-major order |
| WmtsDownload.VisitNext | ortho_images_download.py:199-234 | visiting tile (row, col) applies exactly one more loop body |
| WmtsDownload.NextRow | ortho_images_download.py:197-199 | the end of one row pass is the start of the next |
| WmtsDownload.Visited | ortho_images_download.py:197-199 | the tiles visited on reaching (row, col) of the half-open loops; its properties are `VisitNext`, `NextRow` and `VisitedPrefix` |
| WmtsDownload.VisitedPrefix | ortho_images_download.py:197-199 | what the loops have visited is a prefix of the full walk |
| WmtsDownload.Init | ortho_images_download.py:98-241 | no session when the range computation raises; otherwise the selected (clamped) range and the downloads and counters of the full walk over it |
| WmtsDownload.DownloadTiles | ortho_images_download.py:197-241 | the downloads, `download_count` and `skip_count` are those of the walk over every tile of the range |
| WmtsDownload.DownloadRow | ortho_images_download.py:199-241 | one row pass: on a break the counters are already final for the whole range; otherwise they are those of the walk up to the end of the row |
| SlippyTiles.LatLonToXYZ | ortho_images_convert.py:30-34 | `latlon_to_xyz` as the pair (`LonToX`, `LatToY`); its properties are those of the two components |
| SlippyTiles.LonToX | ortho_images_convert.py:30-34 | the x of `latlon_to_xyz`; its properties are `LonToXMonotone`, `TileOfLongitude` and `CoordinatesDouble` |
| SlippyTiles.LatToY | ortho_images_convert.py:30-34 | the y of `latlon_to_xyz`, `tile_count` times the relative y `mercY(lat)`; its properties are `BBoxRowsFromOppositeCorners`, `RowOfRel`, `LatEdgesRoundTrip` and `CoordinatesDouble` |
| SlippyTiles.BBoxToXYZ | ortho_images_convert.py:37-41 | `bbox_to_xyz` floors the two corners; its properties are `BBoxCoversBox` (the grid contains the box), `BBoxColumnsOrdered`, `BBoxRowsFromOppositeCorners`, `PointInTile` and the zoom lemmas |
| SlippyTiles.XToLonEdges | ortho_images_convert.py:58-63 | column x's west and east longitudes; its properties are `TileWidth`, `OuterColumns` and `LonEdgesRoundTrip` |
| SlippyTiles.YToLatEdges | ortho_images_convert.py:48-55 | row y's top and bottom latitudes through `latOfRel`; its property is `LatEdgesRoundTrip` |
| SlippyTiles.TileEdges | ortho_images_convert.py:66-69 | the bounds handed to GDAL; its properties are `TileEdgesLayout` and `TileBoundsRoundTrip` |
| SlippyTiles.TileCount | ortho_images_convert.py:31 | `pow(2, z)` is at least 1, so the tile unit `1 / tile_count` is defined |
| SlippyTiles.TileWidth | ortho_images_convert.py:58-63 | each column is 360 / 2^z degrees wide, and neighbouring columns share their edge |
| SlippyTiles.OuterColumns | ortho_images_convert.py:58-63 | column 0 starts at -180 and column 2^z - 1 ends at 180 |
| SlippyTiles.LonEdgesRoundTrip | ortho_images_convert.py:58-63 | `latlon_to_xyz` maps column x's west edge to exactly x and its east edge to x + 1 |
| SlippyTiles.LonToXMonotone | ortho_images_convert.py:30-34 | the x of a longitude is order-preserving (both directions) |
| SlippyTiles.TileOfLongitude | ortho_images_convert.py:30-34 | floor of x is column x exactly when the longitude is in [west edge, east edge) |
| SlippyTiles.BBoxColumnsOrdered | ortho_images_convert.py:37-41 | a west-to-east box gives `x_min <= x_max` |
| SlippyTiles.BBoxRowsFromOppositeCorners | ortho_images_convert.py:37-41 | `y_max` comes from `lat_min` and `y_min` from `lat_max`; with a latitude transform decreasing northwards, `y_min <= y_max` |
| SlippyTiles.BBoxCoversBox | ortho_images_convert.py:37-41 | the grid contains the box: for a west-to-east, south-to-north box and an antitone latitude transform, the tile of every point of the box lies in `x_min..x_max` and `y_min..y_max` |
| SlippyTiles.TileEdgesLayout | ortho_images_convert.py:66-69 | the bounds are `[lon1, lat1, lon2, lat2]` with west < east; with a strictly decreasing inverse transform the top edge is north of the bottom edge |
| SlippyTiles.PointInTile | ortho_images_convert.py:37-41 | a point inside tile (x, y) maps through `bbox_to_xyz` to the single tile (x, y) |
| SlippyTiles.LatEdgesRoundTrip | ortho_images_convert.py:48-55 | with an exact inverse latitude transform, row y's edges map back to y and y + 1 |
| SlippyTiles.TileBoundsRoundTrip | ortho_images_convert.py:66-69 | a tile's own bounds fed back to `bbox_to_xyz` give columns x..x + 1 and rows y..y + 1 |
| SlippyTiles.TileCountDoubles | ortho_images_convert.py:31 | one zoom level more doubles `pow(2, z)` |
| SlippyTiles.CoordinatesDouble | ortho_images_convert.py:30-34 | at zoom z + 1 both fractional tile coordinates are twice those at zoom z |
| SlippyTiles.FloorSpreadDoubles | ortho_images_convert.py:37-41 | doubling two ordered coordinates never narrows the distance between their floors |
| SlippyTiles.BBoxColumnsGrowWithZoom | ortho_images_convert.py:37-41 | zooming in one level never narrows `x_max - x_min` for a west-to-east box |
| SlippyTiles.BBoxRowsGrowWithZoom | ortho_images_convert.py:37-41 | zooming in one level never narrows `y_max - y_min` for a south-to-north box, with an antitone latitude transform |
| TileSource.Replace | ortho_images_convert.py:73-79 | Python's `str.replace`: a left-to-right scan replacing non-overlapping occurrences; its properties are the `Replace…` lemmas below |
| TileSource.Substitute | ortho_images_convert.py:73-76 | the three `replace` calls, `{x}` then `{y}` then `{z}`; its properties are `SubstituteFillsAll` and `SubstituteTemplate` |
| TileSource.FetchTile | ortho_images_convert.py:72-92 | `fetch_tile` without I/O: a local file path, or the URL and its temporary file; its properties are `LocalSourceRoundTrip`, `LocalTemplateFetch` and `RemoteTilesDistinctPaths` |
| TileSource.TileSourceArgument | ortho_images_convert.py:161 | `main` prefixes a non-`http` argument with `file:///`; its property is `LocalSourceRoundTrip` |
| TileSource.Digit | ortho_images_convert.py:74 | a digit value becomes a character '0'..'9' |
| TileSource.NatToDecimal | ortho_images_convert.py:74 | `str(n)` is non-empty, all digits, and has no leading zero unless it is "0" |
| TileSource.IntToDecimal | ortho_images_convert.py:74 | `str(i)` is non-empty, made of digits and '-', and starts with '-' exactly for negative i |
| TileSource.NatDecimalRoundTrip | ortho_images_convert.py:74 | parsing `str(n)` gives n back |
| TileSource.IntDecimalRoundTrip | ortho_images_convert.py:74 | parsing `str(i)` gives i back, negatives included |
| TileSource.ReplaceWithoutOccurrence | ortho_images_convert.py:73-79 | `replace` leaves a string without the pattern unchanged |
| TileSource.ReplaceAfterPrefix | ortho_images_convert.py:73-79 | a prefix without the pattern's first character is copied unchanged |
| TileSource.ReplaceFillsFirst | ortho_images_convert.py:73-79 | the first occurrence is replaced and the scan continues after it |
| TileSource.ReplacedPrefix | ortho_images_convert.py:73-79 | a prefix of the result that shares no character with the replacement was already a prefix of the input |
| TileSource.ReplaceRemovesAll | ortho_images_convert.py:73-76 | with a non-empty replacement sharing no character with the pattern, no occurrence is left |
| TileSource.ReplaceKeepsAbsent | ortho_images_convert.py:73-76 | `replace` introduces no string that shares no character with the replacement |
| TileSource.DecimalAvoidsPlaceholder | ortho_images_convert.py:73-76 | `str(i)` contains none of the characters of `{x}`, `{y}`, `{z}` |
| TileSource.SubstituteFillsAll | ortho_images_convert.py:73-76 | after the three `replace` calls no `{x}`, `{y}` or `{z}` is left |
| TileSource.Swap | ortho_images_convert.py:73-76 | swapping one placeholder piece replaces exactly the pieces equal to it |
| TileSource.ReplacePiece | ortho_images_convert.py:73-76 | `replace` of a `{c}` placeholder treats a leading template piece (any `{c}` placeholder, or brace-free text) on its own |
| TileSource.ReplacePieces | ortho_images_convert.py:73-76 | one `replace` on a template swaps exactly the pieces equal to the placeholder |
| TileSource.FillAll | ortho_images_convert.py:73-76 | filling keeps one output piece per template piece |
| TileSource.SwapsFill | ortho_images_convert.py:73-76 | the three swaps in order fill every placeholder with its decimal string |
| TileSource.SubstituteTemplate | ortho_images_convert.py:73-76 | on any template of `{c}` placeholders and brace-free text, the `replace` chain gives the template with `{x}`, `{y}` and `{z}` written in and every other placeholder (such as `{s}`) kept |
| TileSource.DecimalHasNoBrace | ortho_images_convert.py:74 | `str(i)` contains no `{` |
| TileSource.SubstituteAfterFilePrefix | ortho_images_convert.py:161 | the substitution leaves a leading `file:///` untouched |
| TileSource.LocalSourceRoundTrip | ortho_images_convert.py:161 | a local path argument gets `file:///` added by `main`, and `fetch_tile` strips it again, giving the substituted path |
| TileSource.DecimalHasNoSeparator | ortho_images_convert.py:81 | `str(i)` contains neither `_` nor `.` |
| TileSource.SplitAtSeparator | ortho_images_convert.py:81 | two strings split at a separator absent from both heads have equal heads and equal tails |
| TileSource.TempNameFields | ortho_images_convert.py:81 | a name `<a>_<b>_<c>.png` determines a, b and c when a and b hold no `_` |
| TileSource.TempPath | ortho_images_convert.py:81 | the temporary file `{temp_dir}/{x}_{y}_{z}.png`; its properties are `TempPathFields` and `RemoteTilesDistinctPaths` |
| TileSource.TempPathFields | ortho_images_convert.py:81 | equal temporary paths hold equal decimal strings for x, y and z |
| TileSource.RemoteTilesDistinctPaths | ortho_images_convert.py:78-92 | an `http` source is substituted and downloaded, and two tiles share a temporary file `<x>_<y>_<z>.png` exactly when they are the same tile |
| TileSource.LocalTemplateFetch | ortho_images_convert.py:72-79 | a non-`http` template is never downloaded: `fetch_tile` gives the template with x, y and z written in and every `file:///` removed |
| OrthoConvert.JobFor | ortho_images_convert.py:133-135 | the `try` body for one tile: what `fetch_tile` gives and the `tile_edges` bounds handed to GDAL; its property is `JobsAreTheirTiles` |
| OrthoConvert.JobsFor | ortho_images_convert.py:130-138 | one job per tile that is fetched |
| OrthoConvert.Attempt | ortho_images_convert.py:132-138 | the `try`/`except OSError` body: a failing tile is reported, any other becomes a job; its property is `RunSplitsTiles` |
| OrthoConvert.Run | ortho_images_convert.py:130-138 | the outcome after the body has run on each tile in turn; its properties are `RunSplitsTiles` and `JobsPartitionTiles` |
| OrthoConvert.GridTiles | ortho_images_convert.py:130-131 | the tiles of the two inclusive `range` loops, x-major; its property is `GridTilesExactlyOnce` |
| OrthoConvert.PrintedTileCount | ortho_images_convert.py:128 | the count in the message before the loop; its properties are `PrintedCountIsVisited` and `BBoxPrintedCount` |
| OrthoConvert.VisitedInclusive | ortho_images_convert.py:130-131 | the tiles the inclusive-range loops have visited on reaching (x, y); its properties are `RunNext` and `NextColumn` |
| OrthoConvert.Convert | ortho_images_convert.py:109-138 | the grid is `bbox_to_xyz` of the box, and the jobs and failures are those of the fold over all grid tiles |
| OrthoConvert.ConvertTiles | ortho_images_convert.py:130-138 | the outer loop produces the jobs and failures of the fold over every grid tile |
| OrthoConvert.ConvertColumn | ortho_images_convert.py:131-138 | one pass of the inner loop extends the fold by column x |
| OrthoConvert.RunNext | ortho_images_convert.py:132-138 | visiting tile (x, y) applies the `try`/`except` body once more |
| OrthoConvert.NextColumn | ortho_images_convert.py:130-131 | the end of column x is the start of column x + 1 |
| OrthoConvert.RunSplitsTiles | ortho_images_convert.py:132-138 | the jobs are the work for the tiles that do not fail, and the failures are the failing tiles, both in loop order |
| OrthoConvert.GridTilesExactlyOnce | ortho_images_convert.py:130-131 | the loop visits a tile exactly when it is in the inclusive ranges, once, x-major |
| OrthoConvert.PrintedCountIsVisited | ortho_images_convert.py:128 | the printed count equals the number of visited tiles when each range is non-empty or empty by one |
| OrthoConvert.BBoxPrintedCount | ortho_images_convert.py:119-128 | for a well-ordered box the printed count is the visited count and at least 1 |
| OrthoConvert.ProductGrows | ortho_images_convert.py:128 | a product of positive widths does not shrink when neither width does |
| OrthoConvert.WiderGridVisitsMore | ortho_images_convert.py:130-131 | a grid at least as wide and as tall as a non-empty grid makes the loops visit at least as many tiles |
| OrthoConvert.ZoomInVisitsNoFewer | ortho_images_convert.py:119-131 | for a fixed well-ordered box, zoom z + 1 visits at least as many tiles as zoom z |
| OrthoConvert.JobsPartitionTiles | ortho_images_convert.py:130-138 | each visited tile becomes exactly one job or one failure; jobs are the non-failing tiles in order |
| OrthoConvert.RunPartitions | ortho_images_convert.py:132-138 | for any ordered walk and any per-tile work, each tile becomes exactly one job or one failure, and the jobs keep the walk's order |
| OrthoConvert.JobsForAt | ortho_images_convert.py:133-135 | the i-th job is the work for the i-th tile |
| OrthoConvert.JobsAreTheirTiles | ortho_images_convert.py:133-135 | each job holds its tile, what `fetch_tile` gave for it and its `tile_edges` bounds |
| TreeMerge.Filter | tree_merge.py:37 | a filtered frame is never longer than the frame |
| TreeMerge.KeptDetections | tree_merge.py:37 | the score and diameter mask; its property is `KeptDetectionsMembers` |
| TreeMerge.Matched | tree_merge.py:40-41 | set 1: the join deduplicated per `baumId`; its properties are the `FirstPerTree…` lemmas |
| TreeMerge.UnmatchedTrees | tree_merge.py:48 | set 2: registry trees whose id is not in set 1; its property is `RegistryPartition` |
| TreeMerge.UnmatchedDetections | tree_merge.py:54 | set 3: kept detections whose id is not in set 1; its property is `DetectionPartition` |
| TreeMerge.MatchedRows | tree_merge.py:42-44 | set 1 rows with the registry geometry and flags 1/1; its property is `MergeLayout` |
| TreeMerge.TreeRows | tree_merge.py:49-51 | set 2 rows with the registry geometry and flags 1/0; its property is `MergeLayout` |
| TreeMerge.DetectionRows | tree_merge.py:55-57 | set 3 rows with the detection geometry and flags 0/1; its property is `MergeLayout` |
| TreeMerge.Merge | tree_merge.py:59 | the three row sets concatenated in order; its properties are `MergeLayout` and `OnlyKeptDetectionsMerged` |
| TreeMerge.FilterMembers | tree_merge.py:48 | a row is in the filtered frame exactly when it is in the frame and passes the mask |
| TreeMerge.KeptDetectionsMembers | tree_merge.py:37 | a detection survives exactly when its score is >= 0 and its diameter <= 50 |
| TreeMerge.FirstPerTree | tree_merge.py:41 | deduplication never adds rows |
| TreeMerge.FirstPerTreeIds | tree_merge.py:41 | deduplication keeps every tree id of the join and no other |
| TreeMerge.FirstPerTreeDistinct | tree_merge.py:41 | set 1 holds at most one row per `baumId` |
| TreeMerge.FirstPerTreeKeepsFirst | tree_merge.py:41 | a join row is kept exactly when it is the first row with its `baumId` |
| TreeMerge.RegistryPartition | tree_merge.py:48 | a registry tree is in set 2 exactly when set 1 has no row with its id; set 1 ids are registry ids |
| TreeMerge.DetectionPartition | tree_merge.py:54 | set 3 holds exactly the kept detections whose `detectId` is not in set 1 |
| TreeMerge.OnlyKeptDetectionsMerged | tree_merge.py:37-59 | every detection in the merged table passed the filter |
| TreeMerge.MergeLayout | tree_merge.py:39-59 | set 1 rows (both records, registry location, 1/1), then set 2 (tree only, its location, 1/0), then set 3 (detection only, its centre, 0/1) |
| TreeMerge.DedupLoserGoesToSet3 | tree_merge.py:40-57 | a second detection of an already matched tree lands in set 3 as an unmaintained detection |
| TreeMerge.SharedDetectionInTwoRows | tree_merge.py:40-44 | a detection meeting two registry trees stays in set 1 twice, once per tree |

## Left out

- **I/O and side effects.**
  - Connecting to the WMTS server, looking up the layer, the tile matrix set and the zoom level (`ortho_images_download.py:101-177`) are not modelled. The tile matrix and its limits are inputs.
  - Removing old files, writing images, `sleep`, and the printed report (`ortho_images_download.py:243-271`) are not modelled. The report's counters are the model's results.
  - The set of tiles already on disk is an input, fixed for the run. The abstract download appends the tile to `downloaded`.
- **Floating point.** Coordinates are exact reals. Float rounding, NaN and infinities are not modelled. Neither is parsing of the bbox strings (`float(bbox[i])`).
- **Latitude maths as parameters.** log, tan, sec, sinh and atan are not modelled. The latitude side of the slippy-map maths enters through two function parameters: `mercY` (latitude to relative y) and `latOfRel` (relative y to latitude). Lemmas that need them require the property they use, such as antitone or exact inverse.
- **Network and GDAL.** HTTP fetch (`urllib`), GDAL `Translate`/`BuildVRT` and `merge_tiles` (`ortho_images_convert.py:81-107`, `ortho_images_convert.py:143-146`) are not modelled. A fetched tile is the `TileFetch` value `fetch_tile` would return. Which tiles raise `OSError` is the input set `failing`.
- OrthoConvert.Convert: ignores the hard-coded grid override at `ortho_images_convert.py:125`, which replaces the computed grid with fixed constants. The model keeps the computed `bbox_to_xyz` grid, which the preceding lines intend.
- OrthoConvert.Convert: the per-tile work enters as a function of the tile (`TileWork`), and the loop takes that function as an argument.
- SlippyTiles.TileCount: negative zoom levels are not modelled (zoom is a `nat`). Python's `pow(2, z)` would give a float there.
- SlippyTiles.TileBoundsRoundTrip: a tile's own bounds fed back to `bbox_to_xyz` do not give the single tile `(x, x, y, y)`. The east and south edges belong to the next tile, so in exact arithmetic the result is `(x, x + 1, y, y + 1)`, and that is what is proved. `PointInTile` proves the single-tile statement for points strictly inside the tile.
- WmtsDownload.DownloadTiles: every download succeeds. In the source a `gettile` or `write_image` that raises (`ortho_images_download.py:216-228`) leaves both loops for the handler at `ortho_images_download.py:273`, which prints the error; the counters and the report at `ortho_images_download.py:243-271` are then skipped. The model has no failing download.
- WmtsDownload.TotalTilesCountsVisits: requires a non-inverted range. When the bbox range lies outside the limits, the clamp at `ortho_images_download.py:188-192` gives an inverted range: the loops visit nothing, yet `total_tiles` (`ortho_images_download.py:266`) can be nonzero. `ClampPastLimitsInverts` proves such a case.
- WmtsDownload.Tiles: the loops use the advertised `maxtilerow` and `maxtilecol` (`ortho_images_download.py:158-162`) as exclusive ends (`range(min_row, max_row)`), as the source does. TileMatrixLimits in the OGC WMTS standard are inclusive, so the last row and column of the limits are never fetched. `UpperLimitsExcluded` states this. The model follows the code and does not correct it.
- OrthoConvert.ConvertTiles: a tile can only be skipped by raising `OSError`, through `failing`. Any other exception at `ortho_images_convert.py:132-138` leaves `convert` altogether. For example, a local directory named `httpdocs/{z}/{x}/{y}.png` starts with `http`, so `main` (`ortho_images_convert.py:161`) does not prefix it, and `urllib.request.Request` raises `ValueError` on it. That path is not modelled.
- OrthoConvert.PrintedCountIsVisited: holds only when each range is non-empty or empty by one. For a reversed range the printed product can differ from the number of tiles visited (0).
- TileSource.LocalSourceRoundTrip: requires that the substituted path does not itself contain `file:///`. `replace("file:///", "")` removes every occurrence, not only the prefix `main` added, and removing one occurrence can join the text around it into a new occurrence. For example, "fifile:///le:///" becomes "file:///".
- **The spatial join is an input.** Computing it (geometry boxes, `intersects`, `tree_merge.py:23-33`, `tree_merge.py:40`) is not modelled. It enters as a sequence of matches, in the join engine's order. Lemmas that need it require that each match pairs a registry tree with a kept detection.
- **Column renaming, type casts and GeoJSON output** (`tree_merge.py:61-90`) are not modelled. Only the record columns the merge reads are modelled: ids, score, diameter, location, centre.
- **Other scripts.** The detector run and its shapefile output (`tree_detect.py`) and the aspect-ratio filter with its plots (`Posprocessing.py`) are not part of this model. They are foreign-library and float-geometry code outside the merge.
