/**
 * The `CentroidTracker` class and the counting pass of the main loop, in
 * the imperative form of the original: fields updated in place, one loop
 * per loop of the original. Every method is proved to leave the tracker in
 * the state that the matching function of `TrackerSpec` computes from the
 * state before, so every property proved there holds of the class.
 */
module Tracker {
  import opened Geometry
  import opened Matching
  import opened TrackerSpec

  /** The centroid of every detection, in input order, computed one box at a time. */
  method InputCentroids(rects: seq<Box>) returns (cs: seq<Point>)
    ensures cs == Centroids(rects)
  {
    cs := [];
    for i := 0 to |rects|
      invariant |cs| == i
      invariant forall j :: 0 <= j < i ==> cs[j] == Centroid(rects[j])
    {
      var b := rects[i];
      var cX := TruncHalf(b.startX + b.endX);
      var cY := TruncHalf(b.startY + b.endY);
      cs := cs + [Point(cX, cY)];
    }
  }

  class CentroidTracker {
    /** The id the next registered object gets. */
    var nextObjectId: nat
    /** The five tables `objects`, `boxes`, `disappeared`, `counted` and `centroid_history`, one record per live id. */
    var tracks: map<int, Track>
    /** The key order the five tables share. */
    var order: seq<int>
    const maxDisappeared: int
    const maxDistance: int
    const historyLen: int
    /** The running count of the main loop. */
    var totalCount: nat
    /** Every id counted so far, including those since evicted. */
    ghost var everCounted: set<int>

    function Snap(): Snapshot
      reads this
    {
      Snapshot(tracks, order, nextObjectId)
    }

    function Cfg(): Config
    {
      Config(maxDisappeared, maxDistance, historyLen)
    }

    /**
     * The tables are consistent, the counted flags of the live objects
     * agree with the ids ever counted, and the running count is the
     * number of those ids: no id has been counted twice.
     */
    ghost predicate Valid()
      reads this
    {
      Consistent(Snap(), Cfg()) && CountedExactly(Snap(), everCounted) && totalCount == |everCounted|
    }

    constructor (maxDisappeared: int := 40, maxDistance: int := 80, historyLen: int := 30)
      ensures Valid()
      ensures Snap() == Empty() && Cfg() == Config(maxDisappeared, maxDistance, historyLen)
      ensures totalCount == 0 && everCounted == {}
    {
      nextObjectId := 0;
      tracks := map[];
      order := [];
      this.maxDisappeared := maxDisappeared;
      this.maxDistance := maxDistance;
      this.historyLen := historyLen;
      totalCount := 0;
      everCounted := {};
    }

    /** `register`: a new object under the next id, with centroid `centroid` and box `bbox`. */
    method Register(centroid: Point, bbox: Box)
      requires Consistent(Snap(), Cfg())
      modifies this
      ensures Snap() == Registered(old(Snap()), centroid, bbox, Cfg())
      ensures totalCount == old(totalCount) && everCounted == old(everCounted)
      ensures old(Valid()) ==> Valid()
    {
      var id := nextObjectId;
      tracks := tracks[id := Track(centroid, bbox, 0, false, [centroid])];
      order := order + [id];
      nextObjectId := nextObjectId + 1;
    }

    /**
     * `deregister`: removes `objectId` from every table. A missing id
     * raises `KeyError` before any table changes; here that is `found`
     * false and an unchanged tracker.
     */
    method Deregister(objectId: int) returns (found: bool)
      requires Consistent(Snap(), Cfg())
      modifies this
      ensures found <==> objectId in old(tracks)
      ensures found ==> Snap() == Deregistered(old(Snap()), objectId, Cfg())
      ensures !found ==> Snap() == old(Snap())
      ensures totalCount == old(totalCount) && everCounted == old(everCounted)
      ensures old(Valid()) ==> Valid()
    {
      if objectId !in tracks {
        return false;
      }
      tracks := tracks - {objectId};
      order := Without(order, objectId);
      found := true;
    }

    /** The empty-frame branch of `update`: every live object, in key order, misses a frame. */
    method AgeAllObjects()
      requires Consistent(Snap(), Cfg())
      modifies this
      ensures Snap() == AgeAll(old(Snap()), old(order), Cfg())
      ensures totalCount == old(totalCount) && everCounted == old(everCounted)
    {
      ghost var s0 := Snap();
      var objectIds := order;
      for i := 0 to |objectIds|
        invariant Increasing(objectIds[..i]) && forall id :: id in objectIds[..i] ==> id in s0.tracks
        invariant Snap() == AgeAll(s0, objectIds[..i], Cfg())
        invariant totalCount == old(totalCount) && everCounted == old(everCounted)
      {
        AgePrefixStep(s0, objectIds, i, Cfg());
        Miss(objectIds[i]);
      }
      assert objectIds[..|objectIds|] == objectIds;
    }

    /** One missed frame for live object `objectId`: its miss count goes up, and past `maxDisappeared` it is deregistered. */
    method Miss(objectId: int)
      requires Consistent(Snap(), Cfg()) && objectId in tracks
      modifies this
      ensures Snap() == Aged(old(Snap()), objectId, Cfg())
      ensures totalCount == old(totalCount) && everCounted == old(everCounted)
    {
      var t := tracks[objectId];
      tracks := tracks[objectId := t.(disappeared := t.disappeared + 1)];
      if t.disappeared + 1 > maxDisappeared {
        var found := Deregister(objectId);
      }
    }

    /** The branch of `update` with no live object: every detection is registered, in input order. */
    method RegisterInputs(rects: seq<Box>, inputCentroids: seq<Point>)
      requires Consistent(Snap(), Cfg()) && inputCentroids == Centroids(rects)
      modifies this
      ensures Snap() == RegisterAll(old(Snap()), rects, UnusedCols(|rects|, {}), Cfg())
      ensures totalCount == old(totalCount) && everCounted == old(everCounted)
    {
      ghost var s0 := Snap();
      for i: nat := 0 to |inputCentroids|
        invariant Snap() == RegisterAll(s0, rects, UnusedCols(i, {}), Cfg())
        invariant totalCount == old(totalCount) && everCounted == old(everCounted)
      {
        RegisterColumn(s0, rects, inputCentroids, UnusedCols(i, {}), i);
      }
    }

    /** Registers detection `col` on top of the detections `cols` already registered from `s0`. */
    method RegisterColumn(ghost s0: Snapshot, rects: seq<Box>, inputCentroids: seq<Point>, ghost cols: seq<nat>, col: nat)
      requires Consistent(s0, Cfg()) && inputCentroids == Centroids(rects) && col < |rects|
      requires forall k :: 0 <= k < |cols| ==> cols[k] < |rects|
      requires Snap() == RegisterAll(s0, rects, cols, Cfg())
      modifies this
      ensures Snap() == RegisterAll(s0, rects, cols + [col], Cfg())
      ensures totalCount == old(totalCount) && everCounted == old(everCounted)
    {
      RegisterAllSnoc(s0, rects, cols, col, Cfg());
      Register(inputCentroids[col], rects[col]);
    }

    /**
     * The matching part of `update`: the distance matrix, its cells sorted
     * by distance, and the greedy walk over them, each committed pair
     * updating its object at once. Returns the used rows and columns.
     */
    method MatchObjects(rects: seq<Box>, inputCentroids: seq<Point>) returns (usedRows: set<nat>, usedCols: set<nat>)
      requires Consistent(Snap(), Cfg()) && inputCentroids == Centroids(rects)
      modifies this
      ensures var w := Matches(old(Snap()), rects, Cfg());
              && Snap() == ApplyMatches(old(Snap()), old(order), w, rects, Cfg())
              && usedRows == Rows(w) && usedCols == Cols(w)
      ensures totalCount == old(totalCount) && everCounted == old(everCounted)
    {
      ghost var s0 := Snap();
      var objectIds := order;
      var objectCentroids := ObjectCentroids(Snap(), Cfg());
      CentroidCounts(Snap(), rects, Cfg());
      var entries := SortedEntries(objectCentroids, inputCentroids);
      usedRows := {};
      usedCols := {};
      ghost var w: seq<Entry> := [];
      NothingMatchedYet(s0, objectIds, entries, rects, Cfg());
      for k := 0 to |entries|
        invariant w == Walk(entries[..k], maxDistance)
        invariant usedRows == Rows(w) && usedCols == Cols(w)
        invariant Applicable(objectIds, w, rects)
        invariant Snap() == ApplyMatches(s0, objectIds, w, rects, Cfg())
        invariant totalCount == old(totalCount) && everCounted == old(everCounted)
      {
        var e := entries[k];
        WalkSnoc(entries, k, maxDistance);
        if e.row !in usedRows && e.col !in usedCols && maxDistance >= 0 && e.dist <= maxDistance * maxDistance {
          AdmittedApplicable(objectIds, w, entries, k, rects, objectCentroids, inputCentroids);
          Commit(s0, objectIds, w, e, rects, inputCentroids);
          usedRows := usedRows + {e.row};
          usedCols := usedCols + {e.col};
          w := w + [e];
        }
      }
      assert entries[..|entries|] == entries;
    }

    /** Commits pair `e` after the pairs `w`: its object takes its detection. */
    method Commit(ghost s0: Snapshot, objectIds: seq<int>, ghost w: seq<Entry>, e: Entry, rects: seq<Box>, inputCentroids: seq<Point>)
      requires Consistent(s0, Cfg()) && Increasing(objectIds)
      requires forall i :: 0 <= i < |objectIds| ==> objectIds[i] in s0.tracks
      requires Applicable(objectIds, w, rects) && Applicable(objectIds, w + [e], rects) && inputCentroids == Centroids(rects)
      requires Snap() == ApplyMatches(s0, objectIds, w, rects, Cfg())
      modifies this
      ensures Snap() == ApplyMatches(s0, objectIds, w + [e], rects, Cfg())
      ensures totalCount == old(totalCount) && everCounted == old(everCounted)
    {
      ApplyMatchesSnoc(s0, objectIds, w, e, rects, Cfg());
      MatchTo(objectIds[e.row], rects[e.col], inputCentroids[e.col]);
    }

    /** Object `objectId` takes detection box `b` with centroid `c`: centroid, box, miss count zero, and the centroid pushed onto its bounded history. */
    method MatchTo(objectId: int, b: Box, c: Point)
      requires Consistent(Snap(), Cfg()) && objectId in tracks && c == Centroid(b)
      modifies this
      ensures Snap() == Matched(old(Snap()), objectId, b, Cfg())
      ensures totalCount == old(totalCount) && everCounted == old(everCounted)
    {
      MatchedUnfold(Snap(), objectId, b, c, Cfg());
      var t := tracks[objectId];
      var history := t.history + [c];
      if |history| > historyLen {
        history := history[1..];
      }
      tracks := tracks[objectId := Track(c, b, 0, t.counted, history)];
    }

    /** The aging part of `update`: each row the matching left unused, in key order, misses a frame. */
    method AgeUnmatched(objectIds: seq<int>, usedRows: set<nat>)
      requires Consistent(Snap(), Cfg()) && Increasing(objectIds)
      requires forall id :: id in objectIds ==> id in tracks
      requires Increasing(Unmatched(objectIds, usedRows))
      modifies this
      ensures Snap() == AgeAll(old(Snap()), Unmatched(objectIds, usedRows), Cfg())
      ensures totalCount == old(totalCount) && everCounted == old(everCounted)
    {
      ghost var s0 := Snap();
      for row := 0 to |objectIds|
        invariant Increasing(Unmatched(objectIds[..row], usedRows))
        invariant forall id :: id in Unmatched(objectIds[..row], usedRows) ==> id in s0.tracks
        invariant Snap() == AgeAll(s0, Unmatched(objectIds[..row], usedRows), Cfg())
        invariant totalCount == old(totalCount) && everCounted == old(everCounted)
      {
        UnmatchedSnoc(objectIds, usedRows, row);
        PrefixMembers(objectIds, row + 1);
        IncreasingPrefix(objectIds, row + 1);
        UnmatchedExactly(objectIds[..row + 1], usedRows);
        if row !in usedRows {
          AgeAllSnoc(s0, Unmatched(objectIds[..row], usedRows), objectIds[row], Cfg());
          Miss(objectIds[row]);
        }
      }
      assert objectIds[..|objectIds|] == objectIds;
    }

    /** The registering part of `update`: each column the matching left unused, in input order, becomes a new object. */
    method RegisterUnmatched(rects: seq<Box>, inputCentroids: seq<Point>, usedCols: set<nat>)
      requires Consistent(Snap(), Cfg()) && inputCentroids == Centroids(rects)
      modifies this
      ensures Snap() == RegisterAll(old(Snap()), rects, UnusedCols(|rects|, usedCols), Cfg())
      ensures totalCount == old(totalCount) && everCounted == old(everCounted)
    {
      ghost var s0 := Snap();
      RegisterNoneYet(s0, rects, usedCols, Cfg());
      for col: nat := 0 to |inputCentroids|
        invariant Snap() == RegisterAll(s0, rects, UnusedCols(col, usedCols), Cfg())
        invariant totalCount == old(totalCount) && everCounted == old(everCounted)
      {
        RegisterIfUnused(s0, rects, inputCentroids, usedCols, col);
      }
    }

    /** Registers detection `col` when the matching left it unused, on top of the unused detections before it. */
    method RegisterIfUnused(ghost s0: Snapshot, rects: seq<Box>, inputCentroids: seq<Point>, usedCols: set<nat>, col: nat)
      requires Consistent(s0, Cfg()) && inputCentroids == Centroids(rects) && col < |rects|
      requires Snap() == RegisterAll(s0, rects, UnusedCols(col, usedCols), Cfg())
      modifies this
      ensures Snap() == RegisterAll(s0, rects, UnusedCols(col + 1, usedCols), Cfg())
      ensures totalCount == old(totalCount) && everCounted == old(everCounted)
    {
      RegisterUnusedSnoc(s0, rects, usedCols, col, Cfg());
      if col !in usedCols {
        Register(inputCentroids[col], rects[col]);
      }
    }

    /**
     * `update(rects)`: the tracker ends in the state `UpdateSpec`
     * computes, the invariant holds again, and the count is untouched.
     */
    method Update(rects: seq<Box>)
      requires Valid()
      modifies this
      ensures Valid()
      ensures Snap() == UpdateSpec(old(Snap()), rects, Cfg())
      ensures totalCount == old(totalCount) && everCounted == old(everCounted)
    {
      ghost var s0 := Snap();
      if |rects| == 0 {
        AgeAllObjects();
      } else {
        var inputCentroids := InputCentroids(rects);
        if |tracks| == 0 {
          RegisterInputs(rects, inputCentroids);
        } else {
          var objectIds := order;
          var usedRows, usedCols := MatchObjects(rects, inputCentroids);
          UnmatchedExactly(objectIds, usedRows);
          AgeUnmatched(objectIds, usedRows);
          RegisterUnmatched(rects, inputCentroids, usedCols);
        }
      }
      assert Snap() == UpdateSpec(s0, rects, Cfg());
      UpdateIds(s0, rects, Cfg());
      CarriedKeepsCounted(s0, Snap(), everCounted, Cfg());
    }

    /**
     * The counting pass of the main loop, over the live objects in key
     * order: an uncounted object whose last two centroids cross `lineY`
     * from above is flagged and adds one to the running count. The ids
     * counted are new ones only, and the invariant holds again.
     */
    method CountCrossings(lineY: int)
      requires Valid()
      modifies this
      ensures Valid()
      ensures Snap() == CountPass(old(Snap()), lineY)
      ensures NewlyCounted(old(Snap()), lineY) !! old(everCounted)
      ensures everCounted == old(everCounted) + NewlyCounted(old(Snap()), lineY)
      ensures totalCount == old(totalCount) + |NewlyCounted(old(Snap()), lineY)|
    {
      ghost var s0 := Snap();
      ghost var done: set<int> := {};
      CountPassCounted(s0, everCounted, lineY, Cfg());
      for i := 0 to |order|
        invariant CountedUpTo(s0, old(everCounted), old(totalCount), lineY, i, done)
      {
        done := CountAt(s0, old(everCounted), old(totalCount), lineY, i, done);
      }
      CountingDone(s0, order, done, lineY, Cfg());
      CountPassExact(s0, Snap(), lineY);
      CountPassConsistent(s0, lineY, Cfg());
    }

    /**
     * The tracker is `s0` with the ids `done` counted on top of the ids
     * `e0` counted before, and the running count `t0` moved on by one
     * for each of them.
     */
    ghost predicate CountedSoFar(s0: Snapshot, e0: set<int>, t0: nat, done: set<int>)
      reads this
    {
      && order == s0.order && nextObjectId == s0.nextId && FlaggedOver(s0, tracks, done)
      && everCounted == e0 + done && done !! e0 && totalCount == t0 + |done|
    }

    /** The pass has visited the first `i` ids of the key order, and counted exactly the newly counted ones among them. */
    ghost predicate CountedUpTo(s0: Snapshot, e0: set<int>, t0: nat, lineY: int, i: nat, done: set<int>)
      reads this
    {
      && CountedSoFar(s0, e0, t0, done) && i <= |order|
      && forall id :: id in done <==> id in order[..i] && id in NewlyCounted(s0, lineY)
    }

    /** The pass visits the id at position `i` of the key order. */
    method CountAt(ghost s0: Snapshot, ghost e0: set<int>, ghost t0: nat, lineY: int, i: nat, ghost done: set<int>) returns (ghost done': set<int>)
      requires Consistent(s0, Cfg()) && CountedExactly(s0, e0)
      requires CountedUpTo(s0, e0, t0, lineY, i, done) && i < |order|
      modifies this
      ensures CountedUpTo(s0, e0, t0, lineY, i + 1, done')
    {
      KeyStep(order, i);
      done' := CountOne(s0, e0, t0, lineY, order[i], done);
    }

    /** One object of the counting pass: counted exactly when it is newly counted in `s0`. */
    method CountOne(ghost s0: Snapshot, ghost e0: set<int>, ghost t0: nat, lineY: int, objectId: int, ghost done: set<int>) returns (ghost done': set<int>)
      requires CountedExactly(s0, e0) && CountedSoFar(s0, e0, t0, done)
      requires objectId in s0.tracks && objectId !in done
      modifies this
      ensures CountedSoFar(s0, e0, t0, done')
      ensures done' == if objectId in NewlyCounted(s0, lineY) then done + {objectId} else done
    {
      FlagStep(s0, tracks, done, objectId, lineY);
      var t := tracks[objectId];
      var crossed := false;
      if !t.counted {
        var hist := t.history;
        if |hist| >= 2 {
          var prevY := hist[|hist| - 2].y;
          var currY := hist[|hist| - 1].y;
          crossed := prevY < lineY && currY >= lineY;
        }
      }
      done' := done;
      if crossed {
        assert objectId !in e0;
        OneMoreCounted(e0, done, objectId);
        totalCount := totalCount + 1;
        tracks := tracks[objectId := t.(counted := true)];
        everCounted := everCounted + {objectId};
        done' := done + {objectId};
      }
    }
  }

  /** Counting one more id, new to both sets, extends the ids counted by one. */
  lemma OneMoreCounted(e0: set<int>, done: set<int>, id: int)
    requires id !in e0 && id !in done && done !! e0
    ensures (e0 + done) + {id} == e0 + (done + {id}) && (done + {id}) !! e0 && |done + {id}| == |done| + 1
  {
  }

  /** Once the pass has gone through the whole key order, the ids it counted are exactly the newly counted ones. */
  lemma CountingDone(s0: Snapshot, order: seq<int>, done: set<int>, lineY: int, cfg: Config)
    requires Consistent(s0, cfg) && order == s0.order
    requires forall id :: id in done <==> id in order[..|order|] && id in NewlyCounted(s0, lineY)
    ensures done == NewlyCounted(s0, lineY)
  {
    assert order[..|order|] == order;
    var N := NewlyCounted(s0, lineY);
    forall id | id in N ensures id in done {
      assert id in s0.tracks;
      assert id in order[..|order|];
    }
    assert forall id :: id in done ==> id in N;
    assert done <= N && N <= done;
  }

  /** The key at position `i` of an increasing key order is not among the keys before it. */
  lemma KeyStep(ids: seq<int>, i: nat)
    requires Increasing(ids) && i < |ids|
    ensures ids[i] !in ids[..i]
    ensures forall id :: id in ids[..i + 1] <==> id in ids[..i] || id == ids[i]
  {
    assert ids[..i + 1] == ids[..i] + [ids[i]];
    forall id | id in ids[..i] ensures id != ids[i] {
      var k :| 0 <= k < i && ids[..i][k] == id;
      assert ids[k] == id;
    }
  }

  /** The cells of the distance matrix, sorted as `update` sorts them. */
  method SortedEntries(oc: seq<Point>, ic: seq<Point>) returns (entries: seq<Entry>)
    ensures entries == SortedCells(oc, ic)
  {
    if |oc| == 0 {
      NoObjectsNoCells(oc, ic);
      return [];
    }
    var D := BuildDistances(oc, ic);
    assert |D[0]| == |ic| && Rectangular(D, |ic|);
    var unsorted := BuildEntries(D);
    entries := SortEntries(unsorted);
  }

  /** Before the walk starts nothing is committed, and the objects are the key order of the state. */
  lemma NothingMatchedYet(s0: Snapshot, objectIds: seq<int>, entries: seq<Entry>, rects: seq<Box>, cfg: Config)
    requires Consistent(s0, cfg) && objectIds == s0.order
    ensures Walk(entries[..0], cfg.maxDistance) == [] && Rows([]) == {} && Cols([]) == {}
    ensures Applicable(objectIds, [], rects) && ApplyMatches(s0, objectIds, [], rects, cfg) == s0
  {
    assert entries[..0] == [];
  }

  /** An entry of the sorted cells whose row is free keeps the committed pairs applicable, and uses one more row and column. */
  lemma AdmittedApplicable(ids: seq<int>, w: seq<Entry>, entries: seq<Entry>, k: nat, rects: seq<Box>, oc: seq<Point>, ic: seq<Point>)
    requires entries == SortedCells(oc, ic) && |oc| == |ids| && |ic| == |rects| && k < |entries|
    requires Applicable(ids, w, rects) && entries[k].row !in Rows(w)
    ensures Applicable(ids, w + [entries[k]], rects)
    ensures Rows(w + [entries[k]]) == Rows(w) + {entries[k].row} && Cols(w + [entries[k]]) == Cols(w) + {entries[k].col}
  {
    var e := entries[k];
    assert e in entries;
    UsedSnoc(w, e);
    forall i | 0 <= i < |w| ensures w[i].row != e.row {
      assert w[i] in w;
    }
  }
}
