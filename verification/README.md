# Centroid tracker and line counter

This project models the vehicle counter in `main.py` and proves properties of it in Dafny. The program has two parts that are modelled here:

- **`CentroidTracker`** keeps one record per live object, keyed by an integer id. It holds five tables side by side: the current centroid, the box, the miss count ("disappeared"), the counted flag and a bounded centroid history.
  - `register` adds a new object under the next id.
  - `deregister` removes an object from all five tables.
  - `update(rects)` handles one frame of detection boxes:
    - **Empty frame:** every live object misses a frame. An object whose miss count passes `maxDisappeared` is deregistered.
    - **No live objects:** every detection is registered, in input order.
    - **Otherwise:** the tracker builds the object/detection distance matrix and lists its cells row by row. It sorts that list stably by distance and walks it greedily. A cell is committed when its row and its column are both free and its distance is within `maxDistance`. The committed object takes the detection's centroid and box, its miss count resets, and the centroid is pushed onto its history; the oldest entry is dropped past `history_len`. Unmatched objects then miss a frame, in key order. Unmatched detections become new objects, in input order.
- **The counting pass** of the main loop. After each `update`, every live object is visited in key order. An object that is not yet counted, and whose last two history entries go from strictly above `line_y` to on or below it, gets its counted flag set and adds one to the running total.

The model has five modules:

- `Geometry` (`geometry.dfy`): points, boxes, the truncating centroid and the squared distance.
- `Matching` (`matching.dfy`): the distance matrix, the row-major cell list, the stable sort by distance and the greedy walk. The walk is proved equal to a declarative description of the greedy matching, and that description has exactly one solution.
- `TrackerSpec` (`tracker_spec.dfy`): the tracker state as a value (`Snapshot`), and each change `register`, `deregister`, `update` and the counting pass make, written as a function of the state before. The tracker's properties are proved here.
- `Scenarios` (`scenarios.dfy`): small frames worked through `TrackerSpec`. One object facing one detection is matched exactly when the detection is within the gate; the concrete cases include near and far detections, two objects matched nearest first, and a crossing counted once.
- `Tracker` (`tracker.dfy`): the class `CentroidTracker` in the imperative form of the original.
  - Its fields are updated in place, and each loop of the original has its own loop.
  - Every method is proved to leave the object in exactly the state the matching `TrackerSpec` function computes.
  - `Update` and `CountCrossings` keep the invariant `Valid`. It says the tables are consistent, and that the running total equals the number of distinct ids ever counted. So no id is counted twice, even after it has been evicted. A vehicle that is evicted and detected again gets a new id, and can then be counted again.

## Model

| member | source | states |
|---|---|---|
| Geometry.TruncHalf | main.py:46-47 | for an integer `n` with `|n| <= 2^53`, where `n / 2.0` is exact, `int(n / 2.0)` truncates toward zero: for `n >= 0` the result `h` has `2h <= n < 2h + 2`; for `n <= 0` it has `2h - 2 < n <= 2h <= 0` |
| Geometry.CentroidBounds | main.py:44-48 | the centroid of a well-formed box lies inside it, within half a pixel of the exact midpoint, on the side nearer zero |
| Geometry.SqDist | main.py:63 | the squared distance is a natural number, zero exactly when the two centroids coincide |
| Matching.BuildDistances | main.py:59-65 | the nested loops build exactly the matrix whose cell (i, j) is the distance from object centroid i to input centroid j |
| Matching.BuildEntries | main.py:67-71 | the nested loops list the cells of the matrix row by row, each as (distance, row, column) |
| Matching.RowMajorCells | main.py:67-71 | that list holds every cell of the matrix exactly once, with its own distance, in row-major order |
| Matching.InsertEntry | main.py:72 | the backward scan inserts an entry after every entry at the same or a smaller distance |
| Matching.SortEntries | main.py:72 | sorting the entry list by distance yields the stable sort of it |
| Matching.SortPermutes | main.py:72 | the sorted list is a permutation of the entry list |
| Matching.SortSorted | main.py:72 | sorting a row-major list stably orders it by distance, and equally near cells keep row-major order |
| Matching.SortedUnique | main.py:72 | two lists in that strict order with the same elements are equal, so any stable sort by distance gives the same list |
| Matching.SortedCells | main.py:59-72 | the sorted entry list holds exactly the cells of the matrix, strictly in consideration order |
| Matching.NoObjectsNoCells | main.py:59-72 | with no object the matrix has no cells |
| Matching.Walk | main.py:74-94 | the pairs the greedy loop commits are gated entries of the list, and no row and no column is used twice |
| Matching.WalkSorted | main.py:77-78 | over the sorted list the commits come in consideration order |
| Matching.WalkPrefix | main.py:78-94 | what is committed after part of the list is a prefix of what is committed over all of it |
| Matching.WalkMaximal | main.py:79-82 | a gated entry left out was skipped because an earlier commit used its row or its column |
| Matching.BlockedBefore | main.py:79-82 | over the sorted list, a gated entry left out conflicts with a committed pair considered before it |
| Matching.GreedyMatch | main.py:59-94 | the committed pairs form a greedy matching: gated cells, strictly in consideration order, rows and columns used once, and every gated cell left out conflicts with an earlier commit |
| Matching.GreedyMatchSound | main.py:59-94 | the walk over the sorted cells is a greedy matching |
| Matching.GreedyMatchComplete | main.py:59-94 | every greedy matching is the walk's result, order included |
| Matching.GreedyMatchingUnique | main.py:59-94 | two greedy matchings of the same matrix under the same gate are equal: the pass makes no hidden choice |
| TrackerSpec.EmptyConsistent | main.py:7-16 | a freshly constructed tracker satisfies the table invariant |
| TrackerSpec.Registered | main.py:18-24 | `register` gives the object the next id, which no live object has, with no misses, not counted and a one-entry history; the id joins the end of the key order, the counter moves on by one, and nothing else changes |
| TrackerSpec.Without | main.py:26-31 | removing an id from the key order keeps exactly the other ids, still increasing |
| TrackerSpec.Deregistered | main.py:26-31 | `deregister` removes the id from every table and the key order, and nothing else changes |
| TrackerSpec.Push | main.py:89-91 | the history after append-then-pop is a suffix of the old history plus the new centroid: at most one entry dropped, none below the cap, never more than the cap once within it, and the newest entry is the new centroid |
| TrackerSpec.Aged | main.py:38-40 | one missed frame raises the miss count by one and evicts the object exactly when the count now exceeds `maxDisappeared`; nothing else changes |
| TrackerSpec.Matched | main.py:83-91 | a matched object takes the detection's centroid and box, its miss count resets, its counted flag stays, its history gets the centroid pushed, and nothing else changes |
| TrackerSpec.AgeAll | main.py:37-40 | aging a list of live ids in turn ages each of them exactly once and leaves every other object as it was |
| TrackerSpec.ApplyMatches | main.py:78-94 | applying the committed pairs in walk order matches each committed row's object to its column's detection; other objects, the key order and the next id are unchanged |
| TrackerSpec.UnmatchedExactly | main.py:97-99 | the unmatched ids are increasing and hold a row's object exactly when the row is unused |
| TrackerSpec.UnusedCols | main.py:105-106 | the unused columns are exactly the columns below the bound that are not used; with nothing used, they are every column in input order |
| TrackerSpec.UnusedColsIncreasing | main.py:105-107 | the unused detections are visited in increasing column order |
| TrackerSpec.RegisterAll | main.py:52-53 | registering a list of detections keeps the table invariant |
| TrackerSpec.RegisterAllRegisters | main.py:104-107 | the k-th registered detection gets id `nextId + k` and a fresh record, and the objects already present are left as they were |
| TrackerSpec.Matches | main.py:59-94 | the committed pairs can be applied: rows and columns are in range, and no row occurs twice |
| TrackerSpec.UpdateSpec | main.py:33-109 | `update` keeps the table invariant in each of its three cases |
| TrackerSpec.MatchFrameEffect | main.py:54-107 | in the matching case, the object of every committed row takes its detection, every other old object is aged once, ids below the old next id are old objects, and the unused detections are the new objects |
| TrackerSpec.UpdateEmptyFrame | main.py:35-41 | an empty frame registers nothing and ages every live object exactly once |
| TrackerSpec.UpdateFirstFrame | main.py:51-53 | with no live object, every detection is registered in input order under ids `nextId, nextId + 1, ...`, and nothing else is live |
| TrackerSpec.UpdateMatchedFrame | main.py:54-107 | with live objects and detections, the greedy matching decides which objects are matched, the rest are aged once, and the unused detections become new objects in input order |
| TrackerSpec.UpdateIds | main.py:33-109 | across any `update`, the next id never goes down; an old id keeps its counted flag; a new id is uncounted and unmissed; and every miss count left behind is zero or within `maxDisappeared` |
| TrackerSpec.MissesEvict | main.py:35-40 | after k empty frames an object is live exactly when its miss count plus k stays within `maxDisappeared`, and then only that count changed |
| TrackerSpec.SurvivesMaxDisappearedMisses | main.py:37-40 | an object just seen survives `maxDisappeared` empty frames and is gone after one more |
| TrackerSpec.Frames | main.py:33-109 | running `update` over a list of frames in order keeps the table invariant and never lowers the next id |
| TrackerSpec.EmptyFrameUnseen | main.py:35-41 | in an empty frame no object is matched |
| TrackerSpec.UnseenAged | main.py:96-102 | an object that no detection of the frame is matched to misses the frame, by the eviction rule of `Aged`, whether the frame is empty (main.py:37-40) or its detections go to other objects |
| TrackerSpec.GoneStaysGone | main.py:18-24 | an id already handed out that is not live stays gone across any `update`: ids are never reused |
| TrackerSpec.UnseenEvict | main.py:96-102 | after any number of consecutive frames in which an object goes unmatched, empty or not, it is live exactly when its miss count plus the number of frames stays within `maxDisappeared`, and then only its miss count changed |
| TrackerSpec.SurvivesMaxDisappearedUnseen | main.py:96-102 | an object just matched survives `maxDisappeared` frames in which it goes unmatched and is gone after one more |
| TrackerSpec.CountPass | main.py:179-188 | the counting pass sets the flag of exactly the newly counted ids, clears none, and changes nothing else |
| TrackerSpec.CountPassExact | main.py:170-188 | flagging exactly the newly counted ids, one at a time, produces the counting pass |
| TrackerSpec.CountPassConsistent | main.py:179-188 | the counting pass keeps the table invariant |
| TrackerSpec.CountPassIdempotent | main.py:180-188 | a second pass over the same histories counts nothing and changes nothing |
| TrackerSpec.CarriedKeepsCounted | main.py:164-188 | an `update` keeps the live counted flags in agreement with the set of ids ever counted |
| TrackerSpec.CountPassCounted | main.py:179-188 | a pass counts only ids not counted before, and afterwards the flags agree with the enlarged set |
| TrackerSpec.CountAfterCarried | main.py:164-188 | counting after an `update` never counts an id counted before |
| TrackerSpec.FrameCountsEachIdOnce | main.py:164-188 | one frame of the main loop counts only ids never counted before, even evicted ones, so the running total counts each id at most once |
| Scenarios.OneCellWithinGate | main.py:78-94 | one object and one detection within the gate: the only cell is committed |
| Scenarios.OneCellBeyondGate | main.py:81-82 | one object and one detection beyond the gate: nothing is committed |
| Scenarios.TwoByTwoNearestFirst | main.py:72-94 | objects at (10,10) and (10,20), detections at (10,11) and (10,19): the two cells at distance 1 are committed, row 0 to column 0 and row 1 to column 1, and the crossed cells are blocked |
| Scenarios.SoleObjectMatched | main.py:54-107 | one live object and one detection within the gate: the object takes the detection, no id is handed out, and it is the only live object |
| Scenarios.SoleObjectMissed | main.py:54-107 | one live object and one detection beyond the gate: the object misses the frame, the detection becomes a new object under the next id, and nothing else is live |
| Scenarios.NearDetectionTakesOver | main.py:83-91 | an object at (100,100) and a detection centred at (105,100): the object takes the new centroid and box, its miss count is zero, its history grows by the new centroid, and nothing is registered |
| Scenarios.FarDetectionStartsNewObject | main.py:96-107 | an object at (0,0) and a detection centred at (100,0), beyond the 80-pixel gate: the object misses the frame and the detection is registered under the next id with a fresh record |
| Scenarios.TwoObjectsKeepTheirDetections | main.py:54-107 | two objects at (10,10) and (10,20) with detections at (10,11) and (10,19): each object takes the detection next to it; no object is registered or aged |
| Scenarios.CrossingCounted | main.py:179-188 | an uncounted object whose history goes from y = 40 to y = 55 is the only id the pass at `line_y = 50` counts, and its flag is set |
| Scenarios.CrossingCountedOnce | main.py:89-91 | after counting, with `history_len` 2, a frame that moves the object to y = 60 leaves the history (50,55), (50,60), and the next pass counts nothing |
| Tracker.InputCentroids | main.py:44-48 | the loop computes the centroid of every detection, in input order |
| Tracker.SortedEntries | main.py:59-72 | the matrix, the row-major list and the stable sort together yield the cells in consideration order |
| Tracker.CentroidTracker.constructor | main.py:7-16 | a new tracker has empty tables, next id 0, the given options and a zero count |
| Tracker.CentroidTracker.Register | main.py:18-24 | `register` changes the state as `Registered` says and keeps `Valid` |
| Tracker.CentroidTracker.Deregister | main.py:26-31 | `deregister` of a live id changes the state as `Deregistered` says; a missing id changes nothing and reports `found` false |
| Tracker.CentroidTracker.Miss | main.py:38-40 | one missed frame changes the state as `Aged` says |
| Tracker.CentroidTracker.AgeAllObjects | main.py:37-40 | the empty-frame loop ages every live object, in key order, as `AgeAll` says |
| Tracker.CentroidTracker.RegisterInputs | main.py:51-53 | the first-frame loop registers every detection in input order |
| Tracker.CentroidTracker.MatchObjects | main.py:56-94 | the matching loop applies the greedy matching to the tables, and returns its used rows and columns |
| Tracker.CentroidTracker.MatchTo | main.py:83-91 | the object takes the detection as `Matched` says, with the history appended and its oldest entry dropped past `history_len` |
| Tracker.CentroidTracker.AgeUnmatched | main.py:97-102 | the aging loop ages exactly the objects of the unused rows, in key order |
| Tracker.CentroidTracker.RegisterUnmatched | main.py:104-107 | the registering loop registers exactly the unused detections, in input order |
| Tracker.CentroidTracker.Update | main.py:33-109 | `update` leaves the tracker in the state `UpdateSpec` computes, keeps `Valid`, and does not touch the count |
| Tracker.CentroidTracker.CountCrossings | main.py:170-188 | the counting loop ends in the state `CountPass` computes; the ids it counts are new, and the total grows by their number, so `Valid` holds again |
| Tracker.CountingDone | main.py:170-188 | after the whole key order, the ids counted are exactly the newly counted ones |

## Left out

- The video pipeline is not part of this model (main.py:112-162 and 190-204): reading frames, resizing, blurring, background subtraction, thresholding, morphology, contour extraction and the size filters. The detection boxes of a frame are a parameter of `Update`.
- Drawing and display are not part of this model: lines, rectangles, labels, windows and the key handling.
- Geometry.TruncHalf: the centroid is computed as `int((a + b) / 2.0)` on floats. The model uses exact integer halving truncated toward zero. This agrees with the float computation when `|a + b| <= 2^53`. Larger sums are rounded when converted to a float, and that rounding is not modelled.
- Geometry.SqDist: distances are squared integers, not `math.hypot` floats. With an integer `maxDistance >= 0`, `d > maxDistance` holds exactly when `d*d > maxDistance*maxDistance`, and squaring keeps the sort order. Floating-point rounding of `hypot` is not modelled. `maxDistance` is an integer in `Config`; a fractional bound is not modelled.
- Matching.SortEntries: the sort is an insertion sort, not Timsort. The only property relied on is the one Python documents for `list.sort` (stable, by key), and `Matching.SortedUnique` shows that every stable sort by distance gives the same list.
- The five `OrderedDict` tables are one map of `Track` records plus one key order. Their key sets only ever change together, in `register` and `deregister`, so they always hold the same ids, in the insertion order of the live ids. The values change alone: `disappeared` is raised by itself (main.py:38, 100) and `counted` is set by itself (main.py:188). The model writes such a change as a new `Track` record with one field replaced.
- Tracker.CentroidTracker.Update: the return value `(objects, boxes)` is not modelled. Callers read the same tables from the object.
- Tracker.CentroidTracker.Deregister: a missing id raises `KeyError` in the source; here it returns `found` false and changes nothing. Every call inside the tracker passes a live id.
- Tracker.CentroidTracker.MatchObjects: the two `continue` guards of the walk are combined into one condition; skipping a cell for either reason has the same effect.
- Tracker.SortedEntries: with no live object it returns the empty list directly. The source never reaches the matrix code in that case, because `update` registers every detection instead.
- `total_count` is a global of the main loop in the source; here it is the field `totalCount` of the class, next to the ghost set `everCounted` that the proofs use.
- Tracker.CentroidTracker.CountCrossings: the source's loop visits `objects.items()` and draws each object before testing it. Only the test and its effect are modelled, in the same key order.
