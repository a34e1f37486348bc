/**
  Slippy-map tile arithmetic of the convert script, following the
  OpenStreetMap tile-naming convention: at zoom `z` the world is a grid of
  2^z by 2^z tiles, x counting eastwards from longitude -180 and y counting
  southwards from the top of the Web Mercator square.

  Coordinates are exact reals. The latitude side goes through log, tan,
  sec, sinh and atan; those two transforms are parameters here:
    `mercY(lat)`   is the relative y in [0, 1] of latitude `lat`
                   (the `(1 - log(tan + sec) / pi) / 2` term of `latlon_to_xyz`),
    `latOfRel(r)`  is the latitude of relative y `r`
                   (`mercatorToLat(pi * (1 - 2 * r))` in `y_to_lat_edges`).
*/
module SlippyTiles {

  /** `pow(2, z)`: the number of tiles along each axis at zoom `z`. */
  function TileCount(z: nat): (n: nat)
    ensures n >= 1
  {
    if z == 0 then 1 else 2 * TileCount(z - 1)
  }

  /** The x component of `latlon_to_xyz`: the fractional tile column of longitude `lon`. */
  function LonToX(lon: real, z: nat): real
  {
    TileCount(z) as real * ((lon + 180.0) / 360.0)
  }

  /** The y component of `latlon_to_xyz`: the fractional tile row of latitude `lat`. */
  function LatToY(lat: real, z: nat, mercY: real -> real): real
  {
    TileCount(z) as real * mercY(lat)
  }

  /** `latlon_to_xyz(lat, lon, z)`: the pair (x, y) of fractional tile coordinates. */
  function LatLonToXYZ(lat: real, lon: real, z: nat, mercY: real -> real): (real, real)
  {
    (LonToX(lon, z), LatToY(lat, z, mercY))
  }

  /** The inclusive tile ranges `bbox_to_xyz` returns. */
  datatype TileGrid = TileGrid(xMin: int, xMax: int, yMin: int, yMax: int)

  /**
    `bbox_to_xyz`: the south-west corner gives `x_min` and `y_max`, the
    north-east corner gives `x_max` and `y_min`, each floored.
  */
  function BBoxToXYZ(lonMin: real, lonMax: real, latMin: real, latMax: real, z: nat, mercY: real -> real): TileGrid
  {
    var (xMin, yMax) := LatLonToXYZ(latMin, lonMin, z, mercY);
    var (xMax, yMin) := LatLonToXYZ(latMax, lonMax, z, mercY);
    TileGrid(xMin.Floor, xMax.Floor, yMin.Floor, yMax.Floor)
  }

  /** `x_to_lon_edges`: the west and east longitudes of tile column `x`. */
  function XToLonEdges(x: int, z: nat): (real, real)
  {
    var unit := 360.0 / TileCount(z) as real;
    var lon1 := -180.0 + x as real * unit;
    (lon1, lon1 + unit)
  }

  /** The relative y of the top and bottom edges of tile row `y`: `relative_y1` and `relative_y2`. */
  function RelRowEdges(y: int, z: nat): (real, real)
  {
    var unit := 1.0 / TileCount(z) as real;
    var rel1 := y as real * unit;
    (rel1, rel1 + unit)
  }

  /** `y_to_lat_edges`: the latitudes of the top and bottom edges of tile row `y`. */
  function YToLatEdges(y: int, z: nat, latOfRel: real -> real): (real, real)
  {
    var (rel1, rel2) := RelRowEdges(y, z);
    (latOfRel(rel1), latOfRel(rel2))
  }

  /** `tile_edges`: the output bounds `[lon1, lat1, lon2, lat2]` of tile (x, y). */
  function TileEdges(x: int, y: int, z: nat, latOfRel: real -> real): seq<real>
  {
    var (lat1, lat2) := YToLatEdges(y, z, latOfRel);
    var (lon1, lon2) := XToLonEdges(x, z);
    [lon1, lat1, lon2, lat2]
  }

  // ---------------------------------------------------------------------------
  // Properties
  // ---------------------------------------------------------------------------

  /** Scaling by `c / n` and then by `n` is scaling by `c`. */
  lemma ScaleCancels(k: real, c: real, n: real)
    requires n > 0.0
    ensures n * (k * (c / n)) == k * c
  {
    var u := c / n;
    assert n * u == c;
    assert n * (k * u) == k * (n * u);
  }

  /** The x of longitude `-180 + k * (360 / n)` at `n` tiles is `k`. */
  lemma ColumnOfEdge(k: real, n: real)
    requires n > 0.0
    ensures n * (((-180.0 + k * (360.0 / n)) + 180.0) / 360.0) == k
  {
    var d := k * (360.0 / n);
    assert (-180.0 + d) + 180.0 == d;
    ScaleCancels(k, 360.0, n);
    assert n * d == k * 360.0;
    assert n * (d / 360.0) == (n * d) / 360.0;
  }

  /** Every tile column is 360 / 2^z degrees wide, and neighbours share their common edge. */
  lemma TileWidth(x: int, z: nat)
    ensures XToLonEdges(x, z).1 - XToLonEdges(x, z).0 == 360.0 / TileCount(z) as real
    ensures XToLonEdges(x, z).1 == XToLonEdges(x + 1, z).0
  {
  }

  /** Column 0 starts at -180 and the last column, 2^z - 1, ends at 180. */
  lemma OuterColumns(z: nat)
    ensures XToLonEdges(0, z).0 == -180.0
    ensures XToLonEdges(TileCount(z) - 1, z).1 == 180.0
  {
    var n := TileCount(z) as real;
    var unit := 360.0 / n;
    calc {
      XToLonEdges(TileCount(z) - 1, z).1;
      -180.0 + (n - 1.0) * unit + unit;
      -180.0 + n * unit;
      { assert n * unit == 360.0; }
      180.0;
    }
  }

  /** The west edge of column x maps back to exactly x, the east edge to exactly x + 1. */
  lemma LonEdgesRoundTrip(x: int, z: nat)
    ensures LonToX(XToLonEdges(x, z).0, z) == x as real
    ensures LonToX(XToLonEdges(x, z).1, z) == x as real + 1.0
  {
    var n := TileCount(z) as real;
    var unit := 360.0 / n;
    ColumnOfEdge(x as real, n);
    ColumnOfEdge(x as real + 1.0, n);
    assert x as real * unit + unit == (x as real + 1.0) * unit;
  }

  /** `LonToX` is strictly increasing. */
  lemma LonToXMonotone(a: real, b: real, z: nat)
    ensures a <= b <==> LonToX(a, z) <= LonToX(b, z)
  {
    var n := TileCount(z) as real;
    assert LonToX(b, z) - LonToX(a, z) == n * ((b - a) / 360.0);
  }

  /** A longitude lies in tile column x exactly when it is in [west edge, east edge). */
  lemma TileOfLongitude(lon: real, x: int, z: nat)
    ensures LonToX(lon, z).Floor == x <==> XToLonEdges(x, z).0 <= lon < XToLonEdges(x, z).1
  {
    var (lon1, lon2) := XToLonEdges(x, z);
    LonEdgesRoundTrip(x, z);
    LonToXMonotone(lon1, lon, z);
    LonToXMonotone(lon2, lon, z);
  }

  /** `bbox_to_xyz` keeps the order of the longitudes: a west-to-east box gives `x_min <= x_max`. */
  lemma BBoxColumnsOrdered(lonMin: real, lonMax: real, latMin: real, latMax: real, z: nat, mercY: real -> real)
    requires lonMin <= lonMax
    ensures BBoxToXYZ(lonMin, lonMax, latMin, latMax, z, mercY).xMin <= BBoxToXYZ(lonMin, lonMax, latMin, latMax, z, mercY).xMax
  {
    LonToXMonotone(lonMin, lonMax, z);
  }

  /**
    The grid `bbox_to_xyz` returns contains the box: the tile of every point
    of a west-to-east, south-to-north box lies in the column and row ranges,
    whenever the latitude transform is antitone.
  */
  lemma BBoxCoversBox(lonMin: real, lonMax: real, latMin: real, latMax: real, z: nat, mercY: real -> real,
                      lon: real, lat: real)
    requires lonMin <= lon <= lonMax && latMin <= lat <= latMax
    requires forall a, b :: a <= b ==> mercY(b) <= mercY(a)
    ensures var g := BBoxToXYZ(lonMin, lonMax, latMin, latMax, z, mercY);
      && g.xMin <= LonToX(lon, z).Floor <= g.xMax
      && g.yMin <= LatToY(lat, z, mercY).Floor <= g.yMax
  {
    var n := TileCount(z) as real;
    LonToXMonotone(lonMin, lon, z);
    LonToXMonotone(lon, lonMax, z);
    assert mercY(latMax) <= mercY(lat) <= mercY(latMin);
    assert n * mercY(latMax) <= n * mercY(lat) <= n * mercY(latMin);
  }

  /**
    y grows southwards: `y_max` comes from `lat_min` and `y_min` from
    `lat_max`, so a box with `lat_min <= lat_max` gives `y_min <= y_max`
    whenever the latitude transform is antitone.
  */
  lemma BBoxRowsFromOppositeCorners(lonMin: real, lonMax: real, latMin: real, latMax: real, z: nat, mercY: real -> real)
    ensures BBoxToXYZ(lonMin, lonMax, latMin, latMax, z, mercY).yMax == LatToY(latMin, z, mercY).Floor
    ensures BBoxToXYZ(lonMin, lonMax, latMin, latMax, z, mercY).yMin == LatToY(latMax, z, mercY).Floor
    ensures latMin <= latMax && (forall a, b :: a <= b ==> mercY(b) <= mercY(a)) ==>
      BBoxToXYZ(lonMin, lonMax, latMin, latMax, z, mercY).yMin <= BBoxToXYZ(lonMin, lonMax, latMin, latMax, z, mercY).yMax
  {
    if latMin <= latMax && (forall a, b :: a <= b ==> mercY(b) <= mercY(a)) {
      var n := TileCount(z) as real;
      assert mercY(latMax) <= mercY(latMin);
      assert n * mercY(latMax) <= n * mercY(latMin);
    }
  }

  /**
    `tile_edges` lists west, top, east, bottom: with a strictly decreasing
    latitude transform the top edge is north of the bottom edge, and west
    is always less than east.
  */
  lemma TileEdgesLayout(x: int, y: int, z: nat, latOfRel: real -> real)
    ensures var e := TileEdges(x, y, z, latOfRel);
      && |e| == 4
      && e[0] == XToLonEdges(x, z).0 && e[2] == XToLonEdges(x, z).1
      && e[1] == YToLatEdges(y, z, latOfRel).0 && e[3] == YToLatEdges(y, z, latOfRel).1
      && e[0] < e[2]
    ensures (forall a, b :: a < b ==> latOfRel(b) < latOfRel(a)) ==> TileEdges(x, y, z, latOfRel)[3] < TileEdges(x, y, z, latOfRel)[1]
  {
    TileWidth(x, z);
    var unit := 1.0 / TileCount(z) as real;
    if forall a, b :: a < b ==> latOfRel(b) < latOfRel(a) {
      var rel1 := y as real * unit;
      assert latOfRel(rel1 + unit) < latOfRel(rel1);
    }
  }

  /**
    A point inside tile (x, y) (its longitude in [west edge, east edge), its
    relative y in the row's band [y / 2^z, (y + 1) / 2^z)) is mapped by
    `bbox_to_xyz` to the single tile (x, y).
  */
  lemma PointInTile(lon: real, lat: real, x: int, y: int, z: nat, mercY: real -> real)
    requires XToLonEdges(x, z).0 <= lon < XToLonEdges(x, z).1
    requires RelRowEdges(y, z).0 <= mercY(lat) < RelRowEdges(y, z).1
    ensures BBoxToXYZ(lon, lon, lat, lat, z, mercY) == TileGrid(x, x, y, y)
  {
    RowOfRel(y, z, mercY(lat));
    TileOfLongitude(lon, x, z);
    PointBBox(lon, lat, z, mercY);
  }

  /** A one-point box gives the single tile of the point's floored coordinates. */
  lemma PointBBox(lon: real, lat: real, z: nat, mercY: real -> real)
    ensures var x, y := LonToX(lon, z).Floor, LatToY(lat, z, mercY).Floor;
      BBoxToXYZ(lon, lon, lat, lat, z, mercY) == TileGrid(x, x, y, y)
  {
  }

  /** A relative y in the band of row y, scaled by 2^z, has floor y. */
  lemma RowOfRel(y: int, z: nat, v: real)
    requires RelRowEdges(y, z).0 <= v < RelRowEdges(y, z).1
    ensures (TileCount(z) as real * v).Floor == y
  {
    var n := TileCount(z) as real;
    var unit := 1.0 / n;
    RelRowEdgesOfUnit(y, z, unit);
    ScaleBand(y, n, unit, v);
  }

  /** Row y's band starts at y units of 1 / 2^z and is one unit wide. */
  lemma RelRowEdgesOfUnit(y: int, z: nat, unit: real)
    requires unit == 1.0 / TileCount(z) as real
    ensures RelRowEdges(y, z) == (y as real * unit, y as real * unit + unit)
  {
    var (rel1, rel2) := RelRowEdges(y, z);
    assert rel1 == y as real * unit;
    assert rel2 == rel1 + unit;
  }

  /** A value in band k of width `unit` = 1 / n, scaled by n, has floor k. */
  lemma ScaleBand(k: int, n: real, unit: real, v: real)
    requires n > 0.0 && unit == 1.0 / n
    requires k as real * unit <= v < k as real * unit + unit
    ensures (n * v).Floor == k
  {
    ScaleCancels(k as real, 1.0, n);
    assert n * unit == 1.0;
    assert n * (k as real * unit) <= n * v;
    assert n * v < n * (k as real * unit + unit);
  }

  /** The row edges, mapped back through an exact inverse of the latitude transform, are y and y + 1. */
  lemma LatEdgesRoundTrip(y: int, z: nat, mercY: real -> real, latOfRel: real -> real)
    requires forall r :: mercY(latOfRel(r)) == r
    ensures LatToY(YToLatEdges(y, z, latOfRel).0, z, mercY) == y as real
    ensures LatToY(YToLatEdges(y, z, latOfRel).1, z, mercY) == y as real + 1.0
  {
    var n := TileCount(z) as real;
    var unit := 1.0 / n;
    var rel1 := y as real * unit;
    assert mercY(latOfRel(rel1)) == rel1;
    assert mercY(latOfRel(rel1 + unit)) == rel1 + unit;
    ScaleCancels(y as real, 1.0, n);
    ScaleCancels(y as real + 1.0, 1.0, n);
    assert n * (rel1 + unit) == n * ((y as real + 1.0) * unit);
  }

  /**
    Feeding a tile's own bounds back into `bbox_to_xyz` (bottom edge as
    `lat_min`, top edge as `lat_max`) gives columns x to x + 1 and rows y to
    y + 1: in exact arithmetic the east and south edges belong to the next
    tile.
  */
  lemma TileBoundsRoundTrip(x: int, y: int, z: nat, mercY: real -> real, latOfRel: real -> real)
    requires forall r :: mercY(latOfRel(r)) == r
    ensures var e := TileEdges(x, y, z, latOfRel);
      BBoxToXYZ(e[0], e[2], e[3], e[1], z, mercY) == TileGrid(x, x + 1, y, y + 1)
  {
    LonEdgesRoundTrip(x, z);
    LatEdgesRoundTrip(y, z, mercY, latOfRel);
  }

  // ---------------------------------------------------------------------------
  // Zooming in
  // ---------------------------------------------------------------------------

  /** One zoom level more doubles the tiles along each axis. */
  lemma TileCountDoubles(z: nat)
    ensures TileCount(z + 1) as real == 2.0 * TileCount(z) as real
  {
  }

  /** At zoom z + 1 every fractional tile coordinate is twice the one at zoom z. */
  lemma CoordinatesDouble(lon: real, lat: real, z: nat, mercY: real -> real)
    ensures LonToX(lon, z + 1) == 2.0 * LonToX(lon, z)
    ensures LatToY(lat, z + 1, mercY) == 2.0 * LatToY(lat, z, mercY)
  {
    TileCountDoubles(z);
  }

  /** Doubling a real at most doubles its floor, plus one. */
  lemma FloorOfDouble(a: real)
    ensures 2 * a.Floor <= (2.0 * a).Floor <= 2 * a.Floor + 1
  {
    var f := a.Floor as real;
    assert f <= a < f + 1.0;
    assert 2.0 * f <= 2.0 * a < 2.0 * f + 2.0;
  }

  /** Doubling two ordered reals never narrows the distance between their floors. */
  lemma FloorSpreadDoubles(a: real, b: real)
    requires a <= b
    ensures b.Floor - a.Floor <= (2.0 * b).Floor - (2.0 * a).Floor
  {
    FloorOfDouble(a);
    FloorOfDouble(b);
    assert (2.0 * a).Floor <= (2.0 * b).Floor;
  }

  /**
    Zooming in by one level never narrows the column range `bbox_to_xyz`
    gives for a west-to-east box.
  */
  lemma BBoxColumnsGrowWithZoom(lonMin: real, lonMax: real, latMin: real, latMax: real, z: nat, mercY: real -> real)
    requires lonMin <= lonMax
    ensures var g, h := BBoxToXYZ(lonMin, lonMax, latMin, latMax, z, mercY), BBoxToXYZ(lonMin, lonMax, latMin, latMax, z + 1, mercY);
      g.xMax - g.xMin <= h.xMax - h.xMin
  {
    LonToXMonotone(lonMin, lonMax, z);
    CoordinatesDouble(lonMin, latMin, z, mercY);
    CoordinatesDouble(lonMax, latMax, z, mercY);
    FloorSpreadDoubles(LonToX(lonMin, z), LonToX(lonMax, z));
  }

  /**
    Zooming in by one level never narrows the row range `bbox_to_xyz` gives
    for a south-to-north box, when the latitude transform is antitone.
  */
  lemma BBoxRowsGrowWithZoom(lonMin: real, lonMax: real, latMin: real, latMax: real, z: nat, mercY: real -> real)
    requires latMin <= latMax
    requires forall a, b :: a <= b ==> mercY(b) <= mercY(a)
    ensures var g, h := BBoxToXYZ(lonMin, lonMax, latMin, latMax, z, mercY), BBoxToXYZ(lonMin, lonMax, latMin, latMax, z + 1, mercY);
      g.yMax - g.yMin <= h.yMax - h.yMin
  {
    var n := TileCount(z) as real;
    assert mercY(latMax) <= mercY(latMin);
    assert n * mercY(latMax) <= n * mercY(latMin);
    CoordinatesDouble(lonMin, latMin, z, mercY);
    CoordinatesDouble(lonMax, latMax, z, mercY);
    FloorSpreadDoubles(LatToY(latMax, z, mercY), LatToY(latMin, z, mercY));
  }
}
