/**
 * Small frames worked through the model. One live object facing one
 * detection is matched exactly when the detection is within the gate;
 * the concrete cases are a near detection taking over its object, a far
 * one starting a new object instead, two objects and two detections
 * matched nearest first, and a crossing counted once.
 */
module Scenarios {
  import opened Geometry
  import opened Matching
  import opened TrackerSpec

  /** One object and one detection within the gate: the only cell is committed. */
  lemma OneCellWithinGate(p: Point, q: Point, maxDistance: int)
    requires WithinGate(SqDist(p, q), maxDistance)
    ensures GreedyMatch([p], [q], maxDistance) == [Entry(SqDist(p, q), 0, 0)]
  {
    var w := [Entry(SqDist(p, q), 0, 0)];
    assert IsGreedyMatching(w, [p], [q], maxDistance);
    GreedyMatchComplete(w, [p], [q], maxDistance);
  }

  /** One object and one detection beyond the gate: nothing is committed. */
  lemma OneCellBeyondGate(p: Point, q: Point, maxDistance: int)
    requires !WithinGate(SqDist(p, q), maxDistance)
    ensures GreedyMatch([p], [q], maxDistance) == []
  {
    assert IsGreedyMatching([], [p], [q], maxDistance);
    GreedyMatchComplete([], [p], [q], maxDistance);
  }

  /**
   * Objects at (10,10) and (10,20), detections at (10,11) and (10,19):
   * the two cells at distance 1 come first, so each object takes the
   * detection next to it, and the crossed cells at distance 9 are
   * blocked.
   */
  lemma TwoByTwoNearestFirst()
    ensures GreedyMatch([Point(10, 10), Point(10, 20)], [Point(10, 11), Point(10, 19)], 80)
            == [Entry(1, 0, 0), Entry(1, 1, 1)]
  {
    var oc := [Point(10, 10), Point(10, 20)];
    var ic := [Point(10, 11), Point(10, 19)];
    var w := [Entry(1, 0, 0), Entry(1, 1, 1)];
    assert SqDist(oc[0], ic[0]) == 1 && SqDist(oc[1], ic[1]) == 1;
    assert SqDist(oc[0], ic[1]) == 81 && SqDist(oc[1], ic[0]) == 81;
    forall e | IsCell(oc, ic, e) && WithinGate(e.dist, 80) && e !in w
      ensures exists j :: 0 <= j < |w| && (w[j].row == e.row || w[j].col == e.col) && Before(w[j], e)
    {
      assert (w[0].row == e.row || w[0].col == e.col) && Before(w[0], e);
    }
    assert IsGreedyMatching(w, oc, ic, 80);
    GreedyMatchComplete(w, oc, ic, 80);
  }

  /** The only committed pair when one object faces one detection within the gate. */
  lemma SoleObjectPair(s: Snapshot, d: Box, cfg: Config)
    requires Consistent(s, cfg) && |s.order| == 1
    requires WithinGate(SqDist(s.tracks[s.order[0]].centroid, Centroid(d)), cfg.maxDistance)
    ensures Matches(s, [d], cfg) == [Entry(SqDist(s.tracks[s.order[0]].centroid, Centroid(d)), 0, 0)]
  {
    var p := s.tracks[s.order[0]].centroid;
    assert ObjectCentroids(s, cfg) == [p] && Centroids([d]) == [Centroid(d)];
    OneCellWithinGate(p, Centroid(d), cfg.maxDistance);
  }

  /** No pair is committed when one object faces one detection beyond the gate. */
  lemma SoleObjectNoPair(s: Snapshot, d: Box, cfg: Config)
    requires Consistent(s, cfg) && |s.order| == 1
    requires !WithinGate(SqDist(s.tracks[s.order[0]].centroid, Centroid(d)), cfg.maxDistance)
    ensures Matches(s, [d], cfg) == []
  {
    var p := s.tracks[s.order[0]].centroid;
    assert ObjectCentroids(s, cfg) == [p] && Centroids([d]) == [Centroid(d)];
    OneCellBeyondGate(p, Centroid(d), cfg.maxDistance);
  }

  /**
   * Across a frame from a state with one live object, every object live
   * afterwards is that object or got an id the frame handed out.
   */
  lemma SoleObjectIds(s: Snapshot, r: Snapshot, cfg: Config)
    requires Consistent(s, cfg) && Consistent(r, cfg) && IdsCarried(s, r, cfg) && |s.order| == 1
    ensures forall x :: x in r.tracks ==> x == s.order[0] || s.nextId <= x < r.nextId
  {
    forall x | x in r.tracks ensures x == s.order[0] || s.nextId <= x < r.nextId {
      if x < s.nextId {
        assert x in s.order;
      }
    }
  }

  /** `SoleObjectIds` for the frame `update([d])`. */
  lemma SoleObjectFrameIds(s: Snapshot, d: Box, cfg: Config)
    requires Consistent(s, cfg) && |s.order| == 1
    ensures var r := UpdateSpec(s, [d], cfg);
            forall x :: x in r.tracks ==> x == s.order[0] || s.nextId <= x < r.nextId
  {
    UpdateIds(s, [d], cfg);
    SoleObjectIds(s, UpdateSpec(s, [d], cfg), cfg);
  }

  /** The columns used by one or two committed pairs. */
  lemma ColsOfPairs(e: Entry, f: Entry)
    ensures Cols([e]) == {e.col} && Cols([e, f]) == {e.col, f.col}
  {
    assert e in [e] && e in [e, f] && f in [e, f];
  }

  /** With every column used, no detection is left to register. */
  lemma AllColumnsUsed()
    ensures UnusedCols(1, {0}) == [] && UnusedCols(2, {0, 1}) == []
  {
    assert UnusedCols(0, {0}) == [] && UnusedCols(0, {0, 1}) == [];
  }

  /** The pair (0, 0) committed: the object takes the detection. */
  lemma SolePairTaken(s: Snapshot, d: Box, cfg: Config, dist: nat)
    requires Consistent(s, cfg) && |s.order| == 1 && |s.tracks| > 0
    requires Matches(s, [d], cfg) == [Entry(dist, 0, 0)]
    ensures MatchedFrom(s, UpdateSpec(s, [d], cfg), s.order[0], d, cfg)
  {
    var w := Matches(s, [d], cfg);
    assert w[0] in w;
    UpdateMatchedFrame(s, [d], cfg);
  }

  /** The pair (0, 0) committed: the detection is used, so no new id is handed out. */
  lemma SolePairNoNewId(s: Snapshot, d: Box, cfg: Config, dist: nat)
    requires Consistent(s, cfg) && |s.order| == 1 && |s.tracks| > 0
    requires Matches(s, [d], cfg) == [Entry(dist, 0, 0)]
    ensures UpdateSpec(s, [d], cfg).nextId == s.nextId
  {
    ColsOfPairs(Entry(dist, 0, 0), Entry(dist, 0, 0));
    AllColumnsUsed();
    UpdateMatchedFrame(s, [d], cfg);
  }

  /** No pair committed: the object misses the frame. */
  lemma NoPairAged(s: Snapshot, d: Box, cfg: Config)
    requires Consistent(s, cfg) && |s.order| == 1 && |s.tracks| > 0
    requires Matches(s, [d], cfg) == []
    ensures AgedFrom(s, UpdateSpec(s, [d], cfg), s.order[0], cfg)
  {
    assert 0 !in Rows([]);
    UpdateMatchedFrame(s, [d], cfg);
  }

  /** No pair committed: the detection becomes a new object under the next id. */
  lemma NoPairRegisters(s: Snapshot, d: Box, cfg: Config)
    requires Consistent(s, cfg) && |s.order| == 1 && |s.tracks| > 0
    requires Matches(s, [d], cfg) == []
    ensures var r := UpdateSpec(s, [d], cfg);
            r.nextId == s.nextId + 1 && NewAt(r, s.nextId, d)
  {
    assert Cols([]) == {};
    var unused := UnusedCols(1, {});
    assert unused == [0];
    UpdateMatchedFrame(s, [d], cfg);
    assert NewAt(UpdateSpec(s, [d], cfg), s.nextId + 0, [d][unused[0]]);
  }

  /**
   * One live object and one detection within the gate: the object takes
   * the detection, nothing is registered, and nothing else is live.
   */
  lemma SoleObjectMatched(s: Snapshot, d: Box, cfg: Config)
    requires Consistent(s, cfg) && |s.order| == 1
    requires WithinGate(SqDist(s.tracks[s.order[0]].centroid, Centroid(d)), cfg.maxDistance)
    ensures var r := UpdateSpec(s, [d], cfg);
            && r.nextId == s.nextId && (forall x :: x in r.tracks <==> x == s.order[0])
            && r.tracks[s.order[0]] == MatchedTrack(s.tracks[s.order[0]], d, cfg)
  {
    assert |s.tracks| > 0 by {
      assert s.order[0] in s.tracks.Keys;
    }
    SoleObjectPair(s, d, cfg);
    SolePairTaken(s, d, cfg, SqDist(s.tracks[s.order[0]].centroid, Centroid(d)));
    SolePairNoNewId(s, d, cfg, SqDist(s.tracks[s.order[0]].centroid, Centroid(d)));
    SoleObjectFrameIds(s, d, cfg);
  }

  /**
   * One live object and one detection beyond the gate: the object misses
   * the frame, the detection becomes a new object under the next id, and
   * nothing else is live.
   */
  lemma SoleObjectMissed(s: Snapshot, d: Box, cfg: Config)
    requires Consistent(s, cfg) && |s.order| == 1
    requires !WithinGate(SqDist(s.tracks[s.order[0]].centroid, Centroid(d)), cfg.maxDistance)
    ensures var r := UpdateSpec(s, [d], cfg);
            && r.nextId == s.nextId + 1 && AgedFrom(s, r, s.order[0], cfg) && NewAt(r, s.nextId, d)
            && forall x :: x in r.tracks ==> x == s.order[0] || x == s.nextId
  {
    assert |s.tracks| > 0 by {
      assert s.order[0] in s.tracks.Keys;
    }
    SoleObjectNoPair(s, d, cfg);
    NoPairAged(s, d, cfg);
    NoPairRegisters(s, d, cfg);
    SoleObjectFrameIds(s, d, cfg);
  }

  /**
   * A live object at (100,100) and one detection at (105,100), 5 pixels
   * away, under the default 80-pixel gate: the object takes the
   * detection's centroid and box, its miss count resets to zero, its
   * history grows by the new centroid, and no object is registered.
   */
  lemma NearDetectionTakesOver(s: Snapshot, d: Box, cfg: Config)
    requires Consistent(s, cfg) && |s.order| == 1 && s.order[0] in s.tracks
    requires s.tracks[s.order[0]].centroid == Point(100, 100) && |s.tracks[s.order[0]].history| < cfg.historyLen
    requires d == Box(100, 95, 110, 105) && cfg.maxDistance == 80
    ensures var id := s.order[0];
            var r := UpdateSpec(s, [d], cfg);
            && r.nextId == s.nextId && (forall x :: x in r.tracks <==> x == id)
            && r.tracks[id].centroid == Point(105, 100) && r.tracks[id].box == d && r.tracks[id].disappeared == 0
            && r.tracks[id].history == s.tracks[id].history + [Point(105, 100)]
  {
    assert Centroid(d) == Point(105, 100);
    assert SqDist(Point(100, 100), Point(105, 100)) == 25;
    SoleObjectMatched(s, d, cfg);
  }

  /**
   * A live object at (0,0) and one detection at (100,0), beyond the
   * 80-pixel gate: the object misses the frame, and the detection becomes
   * a new object under the next id.
   */
  lemma FarDetectionStartsNewObject(s: Snapshot, d: Box, cfg: Config)
    requires Consistent(s, cfg) && |s.order| == 1 && s.order[0] in s.tracks
    requires s.tracks[s.order[0]].centroid == Point(0, 0)
    requires d == Box(100, 0, 100, 0) && cfg.maxDistance == 80
    ensures var id := s.order[0];
            var r := UpdateSpec(s, [d], cfg);
            && r.nextId == s.nextId + 1 && AgedFrom(s, r, id, cfg)
            && (forall x :: x in r.tracks ==> x == id || x == s.nextId)
            && r.tracks[s.nextId] == Track(Point(100, 0), d, 0, false, [Point(100, 0)])
  {
    assert Centroid(d) == Point(100, 0);
    assert SqDist(Point(0, 0), Point(100, 0)) == 10000;
    SoleObjectMissed(s, d, cfg);
  }

  /** The detection pairs of the two-object scenario, as `update` commits them. */
  lemma TwoObjectPairs(s: Snapshot, d0: Box, d1: Box, cfg: Config)
    requires Consistent(s, cfg) && |s.order| == 2 && s.order[0] in s.tracks && s.order[1] in s.tracks
    requires s.tracks[s.order[0]].centroid == Point(10, 10) && s.tracks[s.order[1]].centroid == Point(10, 20)
    requires Centroid(d0) == Point(10, 11) && Centroid(d1) == Point(10, 19) && cfg.maxDistance == 80
    ensures Matches(s, [d0, d1], cfg) == [Entry(1, 0, 0), Entry(1, 1, 1)]
  {
    assert ObjectCentroids(s, cfg) == [Point(10, 10), Point(10, 20)];
    assert Centroids([d0, d1]) == [Point(10, 11), Point(10, 19)];
    TwoByTwoNearestFirst();
  }

  /** Both pairs committed: each object takes its detection and no new id is handed out. */
  lemma TwoPairsApplied(s: Snapshot, d0: Box, d1: Box, cfg: Config)
    requires Consistent(s, cfg) && |s.order| == 2 && |s.tracks| > 0
    requires Matches(s, [d0, d1], cfg) == [Entry(1, 0, 0), Entry(1, 1, 1)]
    ensures var r := UpdateSpec(s, [d0, d1], cfg);
            && r.nextId == s.nextId
            && MatchedFrom(s, r, s.order[0], d0, cfg) && MatchedFrom(s, r, s.order[1], d1, cfg)
  {
    var w := Matches(s, [d0, d1], cfg);
    assert w[0] in w && w[1] in w;
    ColsOfPairs(w[0], w[1]);
    AllColumnsUsed();
    UpdateMatchedFrame(s, [d0, d1], cfg);
  }

  /** A frame that hands out no id leaves no object live that was not live before. */
  lemma NoNewIds(s: Snapshot, rects: seq<Box>, cfg: Config)
    requires Consistent(s, cfg) && UpdateSpec(s, rects, cfg).nextId == s.nextId
    ensures forall x :: x in UpdateSpec(s, rects, cfg).tracks ==> x in s.tracks
  {
    UpdateIds(s, rects, cfg);
  }

  /**
   * Two live objects at (10,10) and (10,20), detections at (10,11) and
   * (10,19): each object takes the detection next to it, and no object
   * is registered or missed.
   */
  lemma TwoObjectsKeepTheirDetections(s: Snapshot, d0: Box, d1: Box, cfg: Config)
    requires Consistent(s, cfg) && |s.order| == 2 && s.order[0] in s.tracks && s.order[1] in s.tracks
    requires s.tracks[s.order[0]].centroid == Point(10, 10) && s.tracks[s.order[1]].centroid == Point(10, 20)
    requires Centroid(d0) == Point(10, 11) && Centroid(d1) == Point(10, 19) && cfg.maxDistance == 80
    ensures var r := UpdateSpec(s, [d0, d1], cfg);
            && r.nextId == s.nextId && (forall x :: x in r.tracks <==> x in s.tracks)
            && r.tracks[s.order[0]] == MatchedTrack(s.tracks[s.order[0]], d0, cfg)
            && r.tracks[s.order[1]] == MatchedTrack(s.tracks[s.order[1]], d1, cfg)
  {
    assert |s.tracks| > 0 by {
      assert s.order[0] in s.tracks.Keys;
    }
    TwoObjectPairs(s, d0, d1, cfg);
    TwoPairsApplied(s, d0, d1, cfg);
    NoNewIds(s, [d0, d1], cfg);
    BothKept(s, UpdateSpec(s, [d0, d1], cfg), cfg);
  }

  /** Both objects of a two-object state live on, and nothing else is live: the live ids are the same. */
  lemma BothKept(s: Snapshot, r: Snapshot, cfg: Config)
    requires Consistent(s, cfg) && |s.order| == 2
    requires s.order[0] in r.tracks && s.order[1] in r.tracks && forall x :: x in r.tracks ==> x in s.tracks
    ensures forall x :: x in r.tracks <==> x in s.tracks
  {
    forall x | x in s.tracks ensures x == s.order[0] || x == s.order[1] {
      assert x in s.order;
    }
  }

  /** An uncounted object whose history goes from (50,40) to (50,55) is the one the counting pass at y = 50 counts. */
  lemma CrossingCounted(s: Snapshot, cfg: Config)
    requires Consistent(s, cfg) && |s.order| == 1 && s.order[0] in s.tracks
    requires s.tracks[s.order[0]].history == [Point(50, 40), Point(50, 55)] && !s.tracks[s.order[0]].counted
    ensures NewlyCounted(s, 50) == {s.order[0]}
    ensures CountPass(s, 50).tracks[s.order[0]].counted
  {
    var id := s.order[0];
    assert Crosses(s.tracks[id].history, 50);
    forall x | x in NewlyCounted(s, 50) ensures x == id {
      assert x in s.order;
    }
  }

  /**
   * The same object after counting: with `history_len` 2, a next frame
   * that moves it to (50,60) leaves the history (50,55), (50,60), and
   * the next counting pass counts nothing.
   */
  lemma CrossingCountedOnce(s: Snapshot, d: Box, cfg: Config)
    requires Consistent(s, cfg) && |s.order| == 1 && s.order[0] in s.tracks
    requires s.tracks[s.order[0]].history == [Point(50, 40), Point(50, 55)] && !s.tracks[s.order[0]].counted
    requires Centroid(d) == Point(50, 60) && cfg.maxDistance == 80 && cfg.historyLen == 2
    ensures var u := UpdateSpec(CountPass(s, 50), [d], cfg);
            && (forall x :: x in u.tracks <==> x == s.order[0])
            && u.tracks[s.order[0]].history == [Point(50, 55), Point(50, 60)]
            && NewlyCounted(u, 50) == {}
  {
    var id := s.order[0];
    CrossingCounted(s, cfg);
    var c := CountPass(s, 50);
    CountPassConsistent(s, 50, cfg);
    assert SqDist(c.tracks[id].centroid, Centroid(d)) == 25 by {
      assert TrackOk(s.tracks[id], cfg);
    }
    SoleObjectMatched(c, d, cfg);
    var u := UpdateSpec(c, [d], cfg);
    PushTwo(c.tracks[id].history, Point(50, 60));
    NothingToCount(u, id, 50);
  }

  /** With `history_len` 2 the history keeps the last centroid and the new one. */
  lemma PushTwo(h: seq<Point>, c: Point)
    requires |h| == 2
    ensures Push(h, c, 2) == [h[1], c]
  {
  }

  /** A state whose only live object is already counted has nothing left to count. */
  lemma NothingToCount(u: Snapshot, id: int, lineY: int)
    requires (forall x :: x in u.tracks <==> x == id) && u.tracks[id].counted
    ensures NewlyCounted(u, lineY) == {}
  {
    forall x | x in u.tracks ensures u.tracks[x].counted {
      assert x == id;
    }
  }
}
