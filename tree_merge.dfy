/**
  The merge of the municipal tree registry with the detected tree crowns
  (tree_merge.py). Detections are filtered by score and diameter; the
  spatial join of registry trees with the kept detections is an input
  (the pairs whose boxes intersect, in the join engine's order). The merge
  then builds three sets:
    set 1: the first join match of each registry tree  (maintained 1, detected 1)
    set 2: the registry trees no match kept            (maintained 1, detected 0)
    set 3: the kept detections no match kept           (maintained 0, detected 1)
  and concatenates them in that order.
*/
module TreeMerge {
  import opened Wrappers

  datatype Point = Point(x: real, y: real)

  /** A registry tree: its id and its point location (`geometry_city`). */
  datatype RegistryTree = RegistryTree(baumId: int, location: Point)

  /** A detected crown: its id, the detector's score, its diameter and its centre (`geometry_detect`). */
  datatype Detection = Detection(detectId: int, score: real, diameter: real, center: Point)

  /** One row of the inner spatial join: a registry tree whose box intersects a detection's box. */
  datatype Match = Match(tree: RegistryTree, detection: Detection)

  /** One row of the merged table. */
  datatype Row = Row(tree: Option<RegistryTree>, detection: Option<Detection>, geometry: Point,
                     maintained: int, detected: int)

  // ---------------------------------------------------------------------------
  // Frames as sequences
  // ---------------------------------------------------------------------------

  /** `frame.loc[mask]`: the elements that satisfy `keep`, in order. */
  function Filter<T>(s: seq<T>, keep: T -> bool): (r: seq<T>)
    ensures |r| <= |s|
  {
    if |s| == 0 then [] else (if keep(s[0]) then [s[0]] else []) + Filter(s[1..], keep)
  }

  /** The detection filter of line 37: a non-negative score and a diameter of at most 50. */
  predicate Kept(d: Detection)
  {
    d.score >= 0.0 && d.diameter <= 50.0
  }

  function KeptDetections(detections: seq<Detection>): seq<Detection>
  {
    Filter(detections, Kept)
  }

  function MatchTreeIds(s: seq<Match>): set<int>
  {
    set m | m in s :: m.tree.baumId
  }

  function MatchDetectIds(s: seq<Match>): set<int>
  {
    set m | m in s :: m.detection.detectId
  }

  /** `drop_duplicates(subset=["baumId"], keep="first")`. */
  function FirstPerTree(join: seq<Match>): (r: seq<Match>)
    ensures |r| <= |join|
  {
    if join == [] then []
    else
      var init := join[..|join| - 1];
      var last := join[|join| - 1];
      FirstPerTree(init) + (if last.tree.baumId in MatchTreeIds(init) then [] else [last])
  }

  /** Set 1 before its columns are set. */
  function Matched(join: seq<Match>): seq<Match>
  {
    FirstPerTree(join)
  }

  /** Set 2 before its columns are set: registry trees whose id is not in set 1. */
  function UnmatchedTrees(registry: seq<RegistryTree>, join: seq<Match>): seq<RegistryTree>
  {
    var ids := MatchTreeIds(Matched(join));
    Filter(registry, (t: RegistryTree) => t.baumId !in ids)
  }

  /** Set 3 before its columns are set: kept detections whose id is not in set 1. */
  function UnmatchedDetections(detections: seq<Detection>, join: seq<Match>): seq<Detection>
  {
    var ids := MatchDetectIds(Matched(join));
    Filter(KeptDetections(detections), (d: Detection) => d.detectId !in ids)
  }

  function MatchedRows(s: seq<Match>): seq<Row>
  {
    seq(|s|, i requires 0 <= i < |s| => Row(Some(s[i].tree), Some(s[i].detection), s[i].tree.location, 1, 1))
  }

  function TreeRows(s: seq<RegistryTree>): seq<Row>
  {
    seq(|s|, i requires 0 <= i < |s| => Row(Some(s[i]), None, s[i].location, 1, 0))
  }

  function DetectionRows(s: seq<Detection>): seq<Row>
  {
    seq(|s|, i requires 0 <= i < |s| => Row(None, Some(s[i]), s[i].center, 0, 1))
  }

  /** The merged table: set 1, then set 2, then set 3. */
  function Merge(registry: seq<RegistryTree>, detections: seq<Detection>, join: seq<Match>): seq<Row>
  {
    MatchedRows(Matched(join)) + TreeRows(UnmatchedTrees(registry, join)) + DetectionRows(UnmatchedDetections(detections, join))
  }

  /**
    What the join engine guarantees about its result: every row pairs a
    registry tree with a detection that passed the filter.
  */
  ghost predicate JoinOf(join: seq<Match>, registry: seq<RegistryTree>, detections: seq<Detection>)
  {
    forall m :: m in join ==> m.tree in registry && m.detection in KeptDetections(detections)
  }

  /** `join[k]` is the first row of the join with its tree's id. */
  predicate FirstWithId(join: seq<Match>, k: int)
    requires 0 <= k < |join|
  {
    forall j :: 0 <= j < k ==> join[j].tree.baumId != join[k].tree.baumId
  }

  // ---------------------------------------------------------------------------
  // Filter
  // ---------------------------------------------------------------------------

  /** A filtered frame holds exactly the rows of the frame that pass the mask. */
  lemma {:induction false} FilterMembers<T>(s: seq<T>, keep: T -> bool, x: T)
    ensures x in Filter(s, keep) <==> x in s && keep(x)
  {
    if |s| > 0 {
      FilterMembers(s[1..], keep, x);
      assert s == [s[0]] + s[1..];
    }
  }

  /** Only detections with a non-negative score and a diameter of at most 50 survive the filter. */
  lemma KeptDetectionsMembers(detections: seq<Detection>, d: Detection)
    ensures d in KeptDetections(detections) <==> d in detections && d.score >= 0.0 && d.diameter <= 50.0
  {
    FilterMembers(detections, Kept, d);
  }

  // ---------------------------------------------------------------------------
  // Set 1: the first match per tree
  // ---------------------------------------------------------------------------

  lemma {:induction false} MatchTreeIdsSnoc(s: seq<Match>, m: Match)
    ensures MatchTreeIds(s + [m]) == MatchTreeIds(s) + {m.tree.baumId}
  {
    assert forall x :: x in s + [m] <==> x in s || x == m;
  }

  /** Deduplication keeps one row for every tree id of the join, and no other id. */
  lemma {:induction false} FirstPerTreeIds(join: seq<Match>)
    ensures MatchTreeIds(FirstPerTree(join)) == MatchTreeIds(join)
  {
    if join != [] {
      var init := join[..|join| - 1];
      var last := join[|join| - 1];
      FirstPerTreeIds(init);
      assert join == init + [last];
      MatchTreeIdsSnoc(init, last);
      MatchTreeIdsSnoc(FirstPerTree(init), last);
    }
  }

  /** Set 1 holds at most one row per tree id. */
  lemma {:induction false} FirstPerTreeDistinct(join: seq<Match>)
    ensures var r := FirstPerTree(join);
      forall i, j :: 0 <= i < j < |r| ==> r[i].tree.baumId != r[j].tree.baumId
  {
    if join != [] {
      var init := join[..|join| - 1];
      var last := join[|join| - 1];
      FirstPerTreeDistinct(init);
      FirstPerTreeIds(init);
      var prev := FirstPerTree(init);
      if last.tree.baumId !in MatchTreeIds(init) {
        forall i | 0 <= i < |prev|
          ensures prev[i].tree.baumId != last.tree.baumId
        {
          assert prev[i] in prev;
        }
      }
    }
  }

  /** A row of the join survives deduplication exactly when it is the first row with its tree id. */
  lemma {:induction false} FirstPerTreeKeepsFirst(join: seq<Match>, m: Match)
    ensures m in FirstPerTree(join) <==> exists k :: 0 <= k < |join| && join[k] == m && FirstWithId(join, k)
  {
    if join != [] {
      var init := join[..|join| - 1];
      var last := join[|join| - 1];
      var n := |join| - 1;
      FirstPerTreeKeepsFirst(init, m);
      // The first rows of `init` are the first rows of `join` before `last`.
      assert forall k :: 0 <= k < n ==> (FirstWithId(init, k) <==> FirstWithId(join, k));
      // `last` is a first row exactly when its id is new.
      assert FirstWithId(join, n) <==> last.tree.baumId !in MatchTreeIds(init) by {
        if !FirstWithId(join, n) {
          var j :| 0 <= j < n && join[j].tree.baumId == last.tree.baumId;
          assert init[j] in init;
        }
      }
      if m in FirstPerTree(join) && m !in FirstPerTree(init) {
        assert m == last;
      }
      if exists k :: 0 <= k < |join| && join[k] == m && FirstWithId(join, k) {
        var k :| 0 <= k < |join| && join[k] == m && FirstWithId(join, k);
        if k < n {
          assert init[k] == m;
        }
      }
    }
  }

  // ---------------------------------------------------------------------------
  // The partitions
  // ---------------------------------------------------------------------------

  /**
    Every registry tree lands in exactly one of set 1 and set 2: set 2 holds
    it exactly when set 1 has no row with its id, and every id in set 1 is
    an id of the registry.
  */
  lemma RegistryPartition(registry: seq<RegistryTree>, detections: seq<Detection>, join: seq<Match>, t: RegistryTree)
    requires JoinOf(join, registry, detections)
    requires t in registry
    ensures t in UnmatchedTrees(registry, join) <==> t.baumId !in MatchTreeIds(Matched(join))
    ensures MatchTreeIds(Matched(join)) == MatchTreeIds(join)
    ensures forall id :: id in MatchTreeIds(Matched(join)) ==> exists u :: u in registry && u.baumId == id
  {
    var ids := MatchTreeIds(Matched(join));
    FilterMembers(registry, (u: RegistryTree) => u.baumId !in ids, t);
    FirstPerTreeIds(join);
  }

  /**
    Set 3 holds exactly the kept detections whose id is not in set 1, even
    when they intersected a registry tree whose first match was another
    detection.
  */
  lemma DetectionPartition(detections: seq<Detection>, join: seq<Match>, d: Detection)
    ensures d in UnmatchedDetections(detections, join) <==>
      d in detections && Kept(d) && d.detectId !in MatchDetectIds(Matched(join))
  {
    var ids := MatchDetectIds(Matched(join));
    FilterMembers(KeptDetections(detections), (e: Detection) => e.detectId !in ids, d);
    FilterMembers(detections, Kept, d);
  }

  /** Every detection in the merged table passed the score and diameter filter. */
  lemma OnlyKeptDetectionsMerged(registry: seq<RegistryTree>, detections: seq<Detection>, join: seq<Match>, i: int)
    requires JoinOf(join, registry, detections)
    requires 0 <= i < |Merge(registry, detections, join)|
    ensures Merge(registry, detections, join)[i].detection.Some? ==>
      Kept(Merge(registry, detections, join)[i].detection.value)
  {
    var s1 := Matched(join);
    var s2 := UnmatchedTrees(registry, join);
    var s3 := UnmatchedDetections(detections, join);
    if i < |s1| {
      FirstPerTreeKeepsFirst(join, s1[i]);
      var d := s1[i].detection;
      KeptDetectionsMembers(detections, d);
    } else if i >= |s1| + |s2| {
      var d := s3[i - |s1| - |s2|];
      DetectionPartition(detections, join, d);
    }
  }

  /**
    The layout of the merged table: set 1 rows carry both records, the
    registry location and flags (1, 1); set 2 rows the tree alone, its
    location and (1, 0); set 3 rows the detection alone, its centre and
    (0, 1); in that order.
  */
  lemma MergeLayout(registry: seq<RegistryTree>, detections: seq<Detection>, join: seq<Match>, i: int)
    requires 0 <= i < |Merge(registry, detections, join)|
    ensures var s1 := Matched(join);
      var s2 := UnmatchedTrees(registry, join);
      var s3 := UnmatchedDetections(detections, join);
      var r := Merge(registry, detections, join)[i];
      && |Merge(registry, detections, join)| == |s1| + |s2| + |s3|
      && (i < |s1| ==> r == Row(Some(s1[i].tree), Some(s1[i].detection), s1[i].tree.location, 1, 1))
      && (|s1| <= i < |s1| + |s2| ==> r == Row(Some(s2[i - |s1|]), None, s2[i - |s1|].location, 1, 0))
      && (|s1| + |s2| <= i ==> r == Row(None, Some(s3[i - |s1| - |s2|]), s3[i - |s1| - |s2|].center, 0, 1))
  {
  }

  // ---------------------------------------------------------------------------
  // Two consequences of deduplicating on the tree id only
  // ---------------------------------------------------------------------------

  /** A detection that loses the deduplication to another detection of the same tree goes to set 3. */
  lemma DedupLoserGoesToSet3()
    ensures var a := RegistryTree(1, Point(0.0, 0.0));
      var d1 := Detection(10, 0.9, 5.0, Point(0.0, 0.0));
      var d2 := Detection(11, 0.8, 5.0, Point(0.0, 0.0));
      var join := [Match(a, d1), Match(a, d2)];
      && Matched(join) == [Match(a, d1)]
      && UnmatchedDetections([d1, d2], join) == [d2]
      && Merge([a], [d1, d2], join)
         == [Row(Some(a), Some(d1), a.location, 1, 1), Row(None, Some(d2), d2.center, 0, 1)]
  {
    var a := RegistryTree(1, Point(0.0, 0.0));
    var d1 := Detection(10, 0.9, 5.0, Point(0.0, 0.0));
    var d2 := Detection(11, 0.8, 5.0, Point(0.0, 0.0));
    var join := [Match(a, d1), Match(a, d2)];
    assert join[..1] == [Match(a, d1)];
    assert [Match(a, d1)][..0] == [];
    assert MatchTreeIds([Match(a, d1)]) == {1};
    assert FirstPerTree([Match(a, d1)]) == [Match(a, d1)];
    assert Matched(join) == [Match(a, d1)];
    assert MatchDetectIds([Match(a, d1)]) == {10};
    assert [d1, d2][1..] == [d2];
    assert [d2][1..] == [];
    assert Kept(d1) && Kept(d2);
    assert Filter([d2], Kept) == [d2];
    assert KeptDetections([d1, d2]) == [d1, d2];
    assert UnmatchedTrees([a], join) == [];
  }

  /** A detection whose box meets two registry trees is the first match of both and appears twice in set 1. */
  lemma SharedDetectionInTwoRows()
    ensures var a := RegistryTree(1, Point(0.0, 0.0));
      var b := RegistryTree(2, Point(1.0, 0.0));
      var d := Detection(10, 0.9, 5.0, Point(0.5, 0.0));
      Matched([Match(a, d), Match(b, d)]) == [Match(a, d), Match(b, d)]
  {
    var a := RegistryTree(1, Point(0.0, 0.0));
    var b := RegistryTree(2, Point(1.0, 0.0));
    var d := Detection(10, 0.9, 5.0, Point(0.5, 0.0));
    var join := [Match(a, d), Match(b, d)];
    assert join[..1] == [Match(a, d)];
    assert [Match(a, d)][..0] == [];
    assert MatchTreeIds([Match(a, d)]) == {1};
  }
}
