/**
  Rectangular ranges of tiles walked by two nested loops. The WMTS download
  loop walks rows outside and columns inside; the slippy-map convert loop
  walks x outside and y inside. A `Cell` names the outer index `major` and
  the inner index `minor`, and `RowMajor` is the order in which the two
  nested loops visit the cells of a half-open rectangle.
*/
module Grid {

  datatype Cell = Cell(major: int, minor: int)

  /** Number of integers in the half-open range [lo, hi): what `range(lo, hi)` yields. */
  function Span(lo: int, hi: int): nat
  {
    if hi <= lo then 0 else hi - lo
  }

  /** `c` is visited strictly before `d` by two nested loops. */
  predicate Before(c: Cell, d: Cell)
  {
    c.major < d.major || (c.major == d.major && c.minor < d.minor)
  }

  /** Strictly increasing in visiting order: every cell at most once, in row-major order. */
  predicate Ordered(s: seq<Cell>)
  {
    forall i, j :: 0 <= i < j < |s| ==> Before(s[i], s[j])
  }

  predicate InRect(c: Cell, majorLo: int, majorHi: int, minorLo: int, minorHi: int)
  {
    majorLo <= c.major < majorHi && minorLo <= c.minor < minorHi
  }

  /** One pass of the inner loop: (major, lo), (major, lo + 1), ..., (major, hi - 1). */
  function Line(major: int, lo: int, hi: int): (r: seq<Cell>)
    ensures |r| == Span(lo, hi)
    decreases hi - lo
  {
    if hi <= lo then [] else Line(major, lo, hi - 1) + [Cell(major, hi - 1)]
  }

  /** Every cell of [majorLo, majorHi) x [minorLo, minorHi), in the order two nested loops visit them. */
  function RowMajor(majorLo: int, majorHi: int, minorLo: int, minorHi: int): seq<Cell>
    decreases majorHi - majorLo
  {
    if majorHi <= majorLo then []
    else RowMajor(majorLo, majorHi - 1, minorLo, minorHi) + Line(majorHi - 1, minorLo, minorHi)
  }

  /** The cells of `s` that are not in `drop`, in their order in `s`. */
  function Without(s: seq<Cell>, drop: set<Cell>): (r: seq<Cell>)
    ensures |r| <= |s|
  {
    if s == [] then []
    else
      var last := s[|s| - 1];
      Without(s[..|s| - 1], drop) + (if last in drop then [] else [last])
  }

  /** The cells of `s` that are in `keep`, in their order in `s`. */
  function Within(s: seq<Cell>, keep: set<Cell>): (r: seq<Cell>)
    ensures |r| <= |s|
  {
    if s == [] then []
    else
      var last := s[|s| - 1];
      Within(s[..|s| - 1], keep) + (if last in keep then [last] else [])
  }

  /** The i-th cell of a line is the i-th minor index from `lo`. */
  lemma {:induction false} LineAt(major: int, lo: int, hi: int)
    ensures forall i :: 0 <= i < |Line(major, lo, hi)| ==> Line(major, lo, hi)[i] == Cell(major, lo + i)
    decreases hi - lo
  {
    if lo < hi {
      LineAt(major, lo, hi - 1);
    }
  }

  /** The loops visit exactly the cells of the rectangle. */
  lemma {:induction false} RowMajorMembership(majorLo: int, majorHi: int, minorLo: int, minorHi: int, c: Cell)
    ensures c in RowMajor(majorLo, majorHi, minorLo, minorHi) <==> InRect(c, majorLo, majorHi, minorLo, minorHi)
    decreases majorHi - majorLo
  {
    if majorLo < majorHi {
      RowMajorMembership(majorLo, majorHi - 1, minorLo, minorHi, c);
      var line := Line(majorHi - 1, minorLo, minorHi);
      LineAt(majorHi - 1, minorLo, minorHi);
      if c.major == majorHi - 1 && minorLo <= c.minor < minorHi {
        assert line[c.minor - minorLo] == c;
      }
    }
  }

  /** The number of cells visited is the product of the two range lengths. */
  lemma {:induction false} RowMajorLength(majorLo: int, majorHi: int, minorLo: int, minorHi: int)
    ensures |RowMajor(majorLo, majorHi, minorLo, minorHi)| == Span(majorLo, majorHi) * Span(minorLo, minorHi)
    decreases majorHi - majorLo
  {
    if majorLo < majorHi {
      RowMajorLength(majorLo, majorHi - 1, minorLo, minorHi);
      var w := Span(minorLo, minorHi);
      assert Span(majorLo, majorHi) * w == Span(majorLo, majorHi - 1) * w + w;
    }
  }

  lemma OrderedConcat(a: seq<Cell>, b: seq<Cell>)
    requires Ordered(a) && Ordered(b)
    requires forall i, j :: 0 <= i < |a| && 0 <= j < |b| ==> Before(a[i], b[j])
    ensures Ordered(a + b)
  {
  }

  /** No cell is visited twice, and the visits follow row-major order. */
  lemma {:induction false} RowMajorOrdered(majorLo: int, majorHi: int, minorLo: int, minorHi: int)
    ensures Ordered(RowMajor(majorLo, majorHi, minorLo, minorHi))
    decreases majorHi - majorLo
  {
    if majorLo < majorHi {
      var prev := RowMajor(majorLo, majorHi - 1, minorLo, minorHi);
      var line := Line(majorHi - 1, minorLo, minorHi);
      RowMajorOrdered(majorLo, majorHi - 1, minorLo, minorHi);
      forall i | 0 <= i < |prev| ensures prev[i].major < majorHi - 1 {
        RowMajorMembership(majorLo, majorHi - 1, minorLo, minorHi, prev[i]);
      }
      LineAt(majorHi - 1, minorLo, minorHi);
      OrderedConcat(prev, line);
    }
  }

  /** Stopping the inner loop early leaves a prefix of the full walk. */
  lemma {:induction false} RowMajorPrefix(majorLo: int, majorHi: int, minorLo: int, minorHi: int, major: int, minor: int)
    requires majorLo <= major < majorHi && minor <= minorHi
    ensures RowMajor(majorLo, major, minorLo, minorHi) + Line(major, minorLo, minor)
            <= RowMajor(majorLo, majorHi, minorLo, minorHi)
    decreases majorHi - majorLo
  {
    var line := Line(major, minorLo, minor);
    var full := Line(major, minorLo, minorHi);
    LineAt(major, minorLo, minor);
    LineAt(major, minorLo, minorHi);
    assert line <= full;
    if major < majorHi - 1 {
      RowMajorPrefix(majorLo, majorHi - 1, minorLo, minorHi, major, minor);
    }
  }

  /** The cells kept by `Without` are exactly those of `s` outside `drop`. */
  lemma {:induction false} WithoutMembers(s: seq<Cell>, drop: set<Cell>, c: Cell)
    ensures c in Without(s, drop) <==> c in s && c !in drop
  {
    if s != [] {
      WithoutMembers(s[..|s| - 1], drop, c);
      assert s == s[..|s| - 1] + [s[|s| - 1]];
    }
  }

  /** One more visited cell is dropped by `Without` when it is in `drop`, and appended otherwise. */
  lemma WithoutSnoc(s: seq<Cell>, t: Cell, drop: set<Cell>)
    ensures t in drop ==> Without(s + [t], drop) == Without(s, drop)
    ensures t !in drop ==> Without(s + [t], drop) == Without(s, drop) + [t]
  {
    assert (s + [t])[..|s|] == s;
  }

  /** One more visited cell is appended by `Within` when it is in `keep`, and dropped otherwise. */
  lemma WithinSnoc(s: seq<Cell>, t: Cell, keep: set<Cell>)
    ensures t in keep ==> Within(s + [t], keep) == Within(s, keep) + [t]
    ensures t !in keep ==> Within(s + [t], keep) == Within(s, keep)
  {
    assert (s + [t])[..|s|] == s;
  }

  /** Filtering a prefix gives a prefix of the filtered sequence. */
  lemma {:induction false} WithoutPrefix(s: seq<Cell>, drop: set<Cell>, k: nat)
    requires k <= |s|
    ensures Without(s[..k], drop) <= Without(s, drop)
    decreases |s| - k
  {
    if k < |s| {
      WithoutPrefix(s[..|s| - 1], drop, k);
      assert s[..|s| - 1][..k] == s[..k];
    } else {
      assert s[..k] == s;
    }
  }

  /** Filtering keeps the visiting order. */
  lemma {:induction false} WithoutOrdered(s: seq<Cell>, drop: set<Cell>)
    requires Ordered(s)
    ensures Ordered(Without(s, drop))
  {
    if s != [] {
      var init := s[..|s| - 1];
      assert Ordered(init);
      WithoutOrdered(init, drop);
      var prev := Without(init, drop);
      forall i | 0 <= i < |prev| ensures Before(prev[i], s[|s| - 1]) {
        WithoutMembers(init, drop, prev[i]);
        assert prev[i] in init;
        var j :| 0 <= j < |init| && init[j] == prev[i];
        assert s[j] == prev[i];
      }
    }
  }

  /** Every visited cell is either kept or dropped. */
  lemma {:induction false} WithoutWithinLength(s: seq<Cell>, d: set<Cell>)
    ensures |Without(s, d)| + |Within(s, d)| == |s|
  {
    if s != [] {
      WithoutWithinLength(s[..|s| - 1], d);
    }
  }
}
