/**
 * The greedy nearest-centroid association of `CentroidTracker.update`:
 * the distance matrix between live objects (rows) and detections
 * (columns), its cells listed row-major, that list stably sorted by
 * distance, and the walk that commits each cell whose row and column are
 * both still free and whose distance passes the gate.
 *
 * Distances are squared integers; see `Geometry.SqDist`.
 */
module Matching {
  import opened Geometry

  /** One cell of the distance matrix: squared distance from live object `row` to detection `col`. */
  datatype Entry = Entry(dist: nat, row: nat, col: nat)

  /** Row-major order of matrix cells: the order in which the entry list is built. */
  predicate CellBefore(a: Entry, b: Entry)
  {
    a.row < b.row || (a.row == b.row && a.col < b.col)
  }

  /**
   * The order in which the greedy pass considers cells: nearer first, and
   * among equally near cells the row-major order, which a stable sort of
   * the row-major list by distance keeps.
   */
  predicate Before(a: Entry, b: Entry)
  {
    a.dist < b.dist || (a.dist == b.dist && CellBefore(a, b))
  }

  predicate CellSorted(es: seq<Entry>)
  {
    forall i, j :: 0 <= i < j < |es| ==> CellBefore(es[i], es[j])
  }

  predicate StrictlySorted(es: seq<Entry>)
  {
    forall i, j :: 0 <= i < j < |es| ==> Before(es[i], es[j])
  }

  /** Cell (r, c) of the distance matrix between object centroids `oc` and detection centroids `ic`. */
  function Cell(oc: seq<Point>, ic: seq<Point>, r: nat, c: nat): Entry
    requires r < |oc| && c < |ic|
  {
    Entry(SqDist(oc[r], ic[c]), r, c)
  }

  /** The distance matrix `D`: one row per live object, one column per detection. */
  function DistanceMatrix(oc: seq<Point>, ic: seq<Point>): seq<seq<nat>>
  {
    seq(|oc|, i requires 0 <= i < |oc| => seq(|ic|, j requires 0 <= j < |ic| => SqDist(oc[i], ic[j])))
  }

  predicate Rectangular(D: seq<seq<nat>>, width: nat)
  {
    forall i :: 0 <= i < |D| ==> |D[i]| == width
  }

  /** The entries of the first `k` cells of row `i`, whose distances are `row`. */
  function RowEntries(row: seq<nat>, i: nat, k: nat): seq<Entry>
    requires k <= |row|
  {
    if k == 0 then [] else RowEntries(row, i, k - 1) + [Entry(row[k - 1], i, k - 1)]
  }

  /** The entries of row `i` are exactly its first `k` cells, each with its own distance, in column order. */
  lemma {:induction false} RowEntriesCells(row: seq<nat>, i: nat, k: nat)
    requires k <= |row|
    ensures forall e :: e in RowEntries(row, i, k) <==> e.row == i && e.col < k && e.dist == row[e.col]
    ensures CellSorted(RowEntries(row, i, k))
  {
    if k > 0 {
      RowEntriesCells(row, i, k - 1);
      var front := RowEntries(row, i, k - 1);
      var es := front + [Entry(row[k - 1], i, k - 1)];
      assert RowEntries(row, i, k) == es;
      forall a, b | 0 <= a < b < |es| ensures CellBefore(es[a], es[b]) {
        if b == |es| - 1 {
          assert es[a] in front;
        }
      }
    }
  }

  /** All cells of a matrix whose rows have `width` columns, listed row by row. */
  function RowMajor(D: seq<seq<nat>>, width: nat): seq<Entry>
    requires Rectangular(D, width)
  {
    if D == [] then [] else RowMajor(D[..|D| - 1], width) + RowEntries(D[|D| - 1], |D| - 1, width)
  }

  /** The row-major list holds every cell of the matrix exactly once, with its own distance, in row-major order. */
  lemma {:induction false} RowMajorCells(D: seq<seq<nat>>, width: nat)
    requires Rectangular(D, width)
    ensures forall e :: e in RowMajor(D, width) <==> e.row < |D| && e.col < width && e.dist == D[e.row][e.col]
    ensures CellSorted(RowMajor(D, width))
  {
    if D != [] {
      var n := |D| - 1;
      RowMajorCells(D[..n], width);
      RowEntriesCells(D[n], n, width);
      var front := RowMajor(D[..n], width);
      var last := RowEntries(D[n], n, width);
      assert forall r :: 0 <= r < n ==> D[..n][r] == D[r];
      var es := front + last;
      assert RowMajor(D, width) == es;
      forall a, b | 0 <= a < b < |es| ensures CellBefore(es[a], es[b]) {
        if a < |front| && b >= |front| {
          assert es[a] in front;
          assert es[b] in last;
        } else if a >= |front| {
          assert es[a] == last[a - |front|] && es[b] == last[b - |front|];
        }
      }
    }
  }

  /**
   * Inserts `x` into a list sorted by distance, after every element at the
   * same or a smaller distance: one step of a stable insertion sort.
   */
  function Insert(s: seq<Entry>, x: Entry): seq<Entry>
  {
    if s == [] || s[|s| - 1].dist <= x.dist then s + [x]
    else Insert(s[..|s| - 1], x) + [s[|s| - 1]]
  }

  /** Inserting adds `x` and keeps every element. */
  lemma {:induction false} InsertPermutes(s: seq<Entry>, x: Entry)
    ensures multiset(Insert(s, x)) == multiset(s) + multiset{x}
  {
    if !(s == [] || s[|s| - 1].dist <= x.dist) {
      var n := |s| - 1;
      InsertPermutes(s[..n], x);
      assert s == s[..n] + [s[n]];
    }
  }

  /**
   * The list sorted by distance with a stable sort (insertion sort, which
   * is what `list.sort(key=...)` promises about its result).
   */
  function SortByDist(es: seq<Entry>): seq<Entry>
  {
    if es == [] then [] else Insert(SortByDist(es[..|es| - 1]), es[|es| - 1])
  }

  /** Sorting permutes the list. */
  lemma {:induction false} SortPermutes(es: seq<Entry>)
    ensures multiset(SortByDist(es)) == multiset(es)
  {
    if es != [] {
      var n := |es| - 1;
      SortPermutes(es[..n]);
      InsertPermutes(SortByDist(es[..n]), es[n]);
      assert es == es[..n] + [es[n]];
    }
  }

  /** Appending an element that comes after every element keeps a list strictly sorted. */
  lemma SortedSnoc(a: seq<Entry>, x: Entry)
    requires StrictlySorted(a)
    requires forall i :: 0 <= i < |a| ==> Before(a[i], x)
    ensures StrictlySorted(a + [x])
  {
  }

  /**
   * Inserting a cell that comes after every element of a sorted list in
   * row-major order keeps the list strictly sorted by `Before`: among
   * equally near cells the earlier-listed one stays first.
   */
  lemma {:induction false} InsertSorted(s: seq<Entry>, x: Entry)
    requires StrictlySorted(s)
    requires forall e :: e in s ==> CellBefore(e, x)
    ensures StrictlySorted(Insert(s, x))
  {
    if s == [] || s[|s| - 1].dist <= x.dist {
      forall i | 0 <= i < |s| ensures Before(s[i], x) {
        assert s[i] in s;
        assert i < |s| - 1 ==> Before(s[i], s[|s| - 1]);
      }
      SortedSnoc(s, x);
    } else {
      var n := |s| - 1;
      assert forall e :: e in s[..n] ==> CellBefore(e, x) by {
        forall e | e in s[..n] ensures CellBefore(e, x) {
          assert e in s;
        }
      }
      InsertSorted(s[..n], x);
      var front := Insert(s[..n], x);
      InsertPermutes(s[..n], x);
      forall i | 0 <= i < |front| ensures Before(front[i], s[n]) {
        assert front[i] in multiset(front);
        if front[i] != x {
          assert front[i] in multiset(s[..n]);
          var k :| 0 <= k < n && s[..n][k] == front[i];
          assert s[k] == front[i];
        }
      }
      SortedSnoc(front, s[n]);
    }
  }

  /** Sorting a row-major list by distance, stably, orders it strictly by `Before`. */
  lemma {:induction false} SortSorted(es: seq<Entry>)
    requires CellSorted(es)
    ensures StrictlySorted(SortByDist(es))
  {
    if es != [] {
      var n := |es| - 1;
      var front := SortByDist(es[..n]);
      assert CellSorted(es[..n]);
      SortSorted(es[..n]);
      SortPermutes(es[..n]);
      forall e | e in front ensures CellBefore(e, es[n]) {
        assert e in multiset(es[..n]);
        var k :| 0 <= k < n && es[..n][k] == e;
        assert es[k] == e;
      }
      InsertSorted(front, es[n]);
    }
  }

  /** In a strictly sorted list, an element that comes before another sits at a smaller index. */
  lemma SortedIndexOrder(l: seq<Entry>, p: nat, q: nat)
    requires StrictlySorted(l) && p < |l| && q < |l|
    requires Before(l[p], l[q])
    ensures p < q
  {
  }

  /**
   * Two lists strictly ordered by `Before` with the same elements are the
   * same list; in particular every stable sort by distance of the row-major
   * cell list yields `SortByDist` of it.
   */
  lemma {:induction false} SortedUnique(a: seq<Entry>, b: seq<Entry>)
    requires StrictlySorted(a) && StrictlySorted(b)
    requires forall x :: x in a <==> x in b
    ensures a == b
  {
    assert a != [] ==> a[0] in b;
    assert b != [] ==> b[0] in a;
    if a != [] && b != [] {
      var k :| 0 <= k < |b| && b[k] == a[0];
      var m :| 0 <= m < |a| && a[m] == b[0];
      assert a[0] == b[0];
      forall x | x in a[1..] ensures x in b[1..] {
        var i :| 1 <= i < |a| && a[i] == x;
        assert Before(a[0], a[i]);
        assert x in b;
        var j :| 0 <= j < |b| && b[j] == x;
        assert b[1..][j - 1] == x;
      }
      forall x | x in b[1..] ensures x in a[1..] {
        var i :| 1 <= i < |b| && b[i] == x;
        assert Before(b[0], b[i]);
        assert x in a;
        var j :| 0 <= j < |a| && a[j] == x;
        assert a[1..][j - 1] == x;
      }
      SortedUnique(a[1..], b[1..]);
      assert a == [a[0]] + a[1..];
      assert b == [b[0]] + b[1..];
    }
  }

  /** `e` is cell (e.row, e.col) of the distance matrix between `oc` and `ic`, with that cell's distance. */
  predicate IsCell(oc: seq<Point>, ic: seq<Point>, e: Entry)
  {
    e.row < |oc| && e.col < |ic| && e == Cell(oc, ic, e.row, e.col)
  }

  /**
   * The cells of the distance matrix in the order the greedy pass
   * considers them: every cell exactly once, strictly ordered by `Before`.
   */
  function SortedCells(oc: seq<Point>, ic: seq<Point>): (l: seq<Entry>)
    ensures StrictlySorted(l)
    ensures forall e :: e in l <==> IsCell(oc, ic, e)
  {
    var D := DistanceMatrix(oc, ic);
    var es := RowMajor(D, |ic|);
    RowMajorCells(D, |ic|);
    SortSorted(es);
    SortPermutes(es);
    var l := SortByDist(es);
    assert forall e :: e in l <==> e in es by {
      forall e ensures e in l <==> e in es {
        assert e in l <==> e in multiset(l);
        assert e in es <==> e in multiset(es);
      }
    }
    forall e ensures IsCell(oc, ic, e) <==> e in es {
      if e.row < |oc| && e.col < |ic| {
        assert D[e.row][e.col] == SqDist(oc[e.row], ic[e.col]);
      }
    }
    l
  }

  /** With no objects the distance matrix has no cells. */
  lemma NoObjectsNoCells(oc: seq<Point>, ic: seq<Point>)
    requires |oc| == 0
    ensures SortedCells(oc, ic) == []
  {
  }

  /** With no detections the distance matrix has no cells. */
  lemma NoDetectionsNoCells(oc: seq<Point>, ic: seq<Point>)
    requires |ic| == 0
    ensures SortedCells(oc, ic) == []
  {
    var l := SortedCells(oc, ic);
    assert forall e :: e !in l;
    NoMemberEmpty(l);
  }

  /** A sequence with no element is empty. */
  lemma NoMemberEmpty<T>(l: seq<T>)
    ensures (forall x :: x !in l) ==> l == []
  {
    if |l| > 0 {
      assert l[0] in l;
    }
  }

  /** The rows already used by the committed pairs `w`. */
  function Rows(w: seq<Entry>): set<nat>
  {
    set e | e in w :: e.row
  }

  /** The columns already used by the committed pairs `w`. */
  function Cols(w: seq<Entry>): set<nat>
  {
    set e | e in w :: e.col
  }

  /** The walk commits `e` after `w` when its row and column are free and its distance passes the gate. */
  predicate Admits(w: seq<Entry>, e: Entry, maxDistance: int)
  {
    e.row !in Rows(w) && e.col !in Cols(w) && WithinGate(e.dist, maxDistance)
  }

  /**
   * The greedy walk over the sorted entries: the pairs it commits, in
   * commit order. Each is a gated entry of the list, no row and no column
   * is committed twice, and over a strictly sorted list the commits come
   * in the list's order.
   */
  function Walk(es: seq<Entry>, maxDistance: int): (w: seq<Entry>)
    ensures forall e :: e in w ==> e in es && WithinGate(e.dist, maxDistance)
    ensures forall i, j :: 0 <= i < j < |w| ==> w[i].row != w[j].row && w[i].col != w[j].col
  {
    if es == [] then []
    else
      var n := |es| - 1;
      var w := Walk(es[..n], maxDistance);
      var e := es[n];
      if Admits(w, e, maxDistance) then
        assert forall i :: 0 <= i < |w| ==> w[i].row != e.row && w[i].col != e.col by {
          forall i | 0 <= i < |w| ensures w[i].row != e.row && w[i].col != e.col {
            assert w[i] in w;
          }
        }
        w + [e]
      else
        w
  }

  /** The walk over one more entry: that entry is committed exactly when `Admits` lets it in. */
  lemma WalkSnoc(es: seq<Entry>, k: nat, maxDistance: int)
    requires k < |es|
    ensures Walk(es[..k + 1], maxDistance) ==
            if Admits(Walk(es[..k], maxDistance), es[k], maxDistance) then Walk(es[..k], maxDistance) + [es[k]]
            else Walk(es[..k], maxDistance)
  {
    assert es[..k + 1][..k] == es[..k] && es[..k + 1][k] == es[k];
  }

  /** The rows and columns used after one more commit. */
  lemma UsedSnoc(w: seq<Entry>, e: Entry)
    ensures Rows(w + [e]) == Rows(w) + {e.row} && Cols(w + [e]) == Cols(w) + {e.col}
  {
    assert forall x :: x in w + [e] <==> x in w || x == e;
  }

  /** Over a strictly sorted list the walk commits pairs in the list's order. */
  lemma {:induction false} WalkSorted(es: seq<Entry>, maxDistance: int)
    requires StrictlySorted(es)
    ensures StrictlySorted(Walk(es, maxDistance))
  {
    if es != [] {
      var n := |es| - 1;
      assert StrictlySorted(es[..n]);
      WalkSorted(es[..n], maxDistance);
      var w := Walk(es[..n], maxDistance);
      if Admits(w, es[n], maxDistance) {
        WalkBeforeLast(es, n, maxDistance);
        SortedSnoc(w, es[n]);
      }
    }
  }

  /** Over a strictly sorted list, everything the walk commits before the last entry comes before it. */
  lemma WalkBeforeLast(es: seq<Entry>, n: nat, maxDistance: int)
    requires StrictlySorted(es) && n + 1 == |es|
    ensures forall i :: 0 <= i < |Walk(es[..n], maxDistance)| ==> Before(Walk(es[..n], maxDistance)[i], es[n])
  {
    var w := Walk(es[..n], maxDistance);
    forall i | 0 <= i < |w| ensures Before(w[i], es[n]) {
      assert w[i] in es[..n];
      var k :| 0 <= k < n && es[..n][k] == w[i];
      assert es[k] == w[i];
    }
  }

  /** What the walk has committed after a prefix of the list is a prefix of what it commits in all. */
  lemma {:induction false} WalkPrefix(es: seq<Entry>, k: nat, maxDistance: int)
    requires k <= |es|
    ensures Walk(es[..k], maxDistance) <= Walk(es, maxDistance)
    decreases |es| - k
  {
    if k < |es| {
      WalkPrefix(es, k + 1, maxDistance);
      assert es[..k + 1][..k] == es[..k];
    } else {
      assert es[..k] == es;
    }
  }

  /**
   * A gated entry the walk leaves out was skipped because a pair committed
   * earlier in the list already used its row or its column.
   */
  lemma WalkMaximal(es: seq<Entry>, k: nat, maxDistance: int) returns (i: nat, m: nat)
    requires k < |es| && WithinGate(es[k].dist, maxDistance)
    requires es[k] !in Walk(es, maxDistance)
    ensures i < |Walk(es[..k], maxDistance)| && m < k
    ensures Walk(es[..k], maxDistance)[i] == es[m] && (es[m].row == es[k].row || es[m].col == es[k].col)
  {
    var w := Walk(es[..k], maxDistance);
    assert !Admits(w, es[k], maxDistance) by {
      WalkSnoc(es, k, maxDistance);
      WalkPrefix(es, k + 1, maxDistance);
      PrefixMember(Walk(es[..k + 1], maxDistance), Walk(es, maxDistance), es[k]);
    }
    var x :| x in w && (x.row == es[k].row || x.col == es[k].col);
    i :| 0 <= i < |w| && w[i] == x;
    m :| 0 <= m < k && es[..k][m] == x;
  }

  /**
   * The greedy matching, declaratively: `w` lists cells of the matrix that
   * pass the gate, in consideration order, with no row and no column used
   * twice; and a gated cell is missing only because a cell considered
   * before it already took its row or its column.
   */
  ghost predicate IsGreedyMatching(w: seq<Entry>, oc: seq<Point>, ic: seq<Point>, maxDistance: int)
  {
    && (forall e :: e in w ==> IsCell(oc, ic, e) && WithinGate(e.dist, maxDistance))
    && StrictlySorted(w)
    && (forall i, j :: 0 <= i < j < |w| ==> w[i].row != w[j].row && w[i].col != w[j].col)
    && (forall e :: IsCell(oc, ic, e) && WithinGate(e.dist, maxDistance) && e !in w ==>
          exists j :: 0 <= j < |w| && (w[j].row == e.row || w[j].col == e.col) && Before(w[j], e))
  }

  /**
   * The pairs `update` commits for object centroids `oc` and detection
   * centroids `ic`: the walk over the row-major cell list stably sorted by
   * distance. They form the greedy matching.
   */
  function GreedyMatch(oc: seq<Point>, ic: seq<Point>, maxDistance: int): (w: seq<Entry>)
    ensures IsGreedyMatching(w, oc, ic, maxDistance)
  {
    GreedyMatchSound(oc, ic, maxDistance);
    Walk(SortedCells(oc, ic), maxDistance)
  }

  lemma GreedyMatchSound(oc: seq<Point>, ic: seq<Point>, maxDistance: int)
    ensures IsGreedyMatching(Walk(SortedCells(oc, ic), maxDistance), oc, ic, maxDistance)
  {
    var l := SortedCells(oc, ic);
    var w := Walk(l, maxDistance);
    WalkSorted(l, maxDistance);
    forall e | IsCell(oc, ic, e) && WithinGate(e.dist, maxDistance) && e !in w
      ensures exists j :: 0 <= j < |w| && (w[j].row == e.row || w[j].col == e.col) && Before(w[j], e)
    {
      var k :| 0 <= k < |l| && l[k] == e;
      BlockedBefore(l, k, maxDistance);
    }
  }

  /** Over a strictly sorted list, a gated entry the walk leaves out conflicts with a committed pair that comes before it. */
  lemma BlockedBefore(l: seq<Entry>, k: nat, maxDistance: int)
    requires StrictlySorted(l) && k < |l| && WithinGate(l[k].dist, maxDistance)
    requires l[k] !in Walk(l, maxDistance)
    ensures var w := Walk(l, maxDistance);
            exists j :: 0 <= j < |w| && (w[j].row == l[k].row || w[j].col == l[k].col) && Before(w[j], l[k])
  {
    var i, m := WalkMaximal(l, k, maxDistance);
    var pw := Walk(l[..k], maxDistance);
    WalkPrefix(l, k, maxDistance);
    var w := Walk(l, maxDistance);
    PrefixIndex(pw, w, i);
    assert w[i] == l[m] && Before(l[m], l[k]);
  }

  /** An element of a prefix is an element of the whole sequence. */
  lemma PrefixMember<T>(a: seq<T>, b: seq<T>, x: T)
    requires a <= b
    ensures x in a ==> x in b
  {
    if x in a {
      var i :| 0 <= i < |a| && a[i] == x;
      assert b[i] == x;
    }
  }

  /** An element of a prefix sits at the same index of the whole sequence. */
  lemma PrefixIndex<T>(a: seq<T>, b: seq<T>, i: nat)
    requires a <= b && i < |a|
    ensures i < |b| && b[i] == a[i]
  {
  }

  /** A gated cell that no earlier committed pair conflicts with is committed. */
  lemma UnblockedIsCommitted(w: seq<Entry>, oc: seq<Point>, ic: seq<Point>, maxDistance: int, e: Entry)
    requires IsGreedyMatching(w, oc, ic, maxDistance)
    requires IsCell(oc, ic, e) && WithinGate(e.dist, maxDistance)
    requires forall x :: x in w && Before(x, e) ==> x.row != e.row && x.col != e.col
    ensures e in w
  {
    if e !in w {
      var j :| 0 <= j < |w| && (w[j].row == e.row || w[j].col == e.col) && Before(w[j], e);
    }
  }

  /**
   * While a greedy matching `w` and the walk over the sorted cells `l`
   * agree on the first `n` cells, the walk admits cell `n` exactly when
   * `w` holds it.
   */
  lemma AdmitsIffCommitted(w: seq<Entry>, oc: seq<Point>, ic: seq<Point>, maxDistance: int, l: seq<Entry>, n: nat)
    requires IsGreedyMatching(w, oc, ic, maxDistance)
    requires l == SortedCells(oc, ic) && n < |l|
    requires AgreesOn(w, l, n, maxDistance)
    ensures Admits(Walk(l[..n], maxDistance), l[n], maxDistance) <==> l[n] in w
  {
    var prev := Walk(l[..n], maxDistance);
    var e := l[n];
    if Admits(prev, e, maxDistance) {
      forall x | x in w && Before(x, e) ensures x.row != e.row && x.col != e.col {
        var p :| 0 <= p < |l| && l[p] == x;
        SortedIndexOrder(l, p, n);
        assert l[..n][p] == x;
        assert x in prev;
        assert x.row in Rows(prev) && x.col in Cols(prev);
      }
      UnblockedIsCommitted(w, oc, ic, maxDistance, e);
    }
    if e in w {
      forall y | y in prev ensures y.row != e.row && y.col != e.col {
        var i :| 0 <= i < n && l[..n][i] == y;
        assert l[i] == y;
        assert Before(y, e);
        var a :| 0 <= a < |w| && w[a] == y;
        var b :| 0 <= b < |w| && w[b] == e;
        assert a != b;
      }
    }
  }

  /**
   * One step of the agreement between a greedy matching `w` and the walk
   * over the sorted cells `l`: if they agree on the first `n` cells, they
   * agree on the first `n + 1`.
   */
  lemma AgreeStep(w: seq<Entry>, maxDistance: int, l: seq<Entry>, n: nat)
    requires StrictlySorted(l) && n < |l|
    requires AgreesOn(w, l, n, maxDistance)
    requires Admits(Walk(l[..n], maxDistance), l[n], maxDistance) <==> l[n] in w
    ensures AgreesOn(w, l, n + 1, maxDistance)
  {
    var prev := Walk(l[..n], maxDistance);
    var e := l[n];
    assert l[..n + 1][..n] == l[..n];
    assert l[..n + 1][n] == e;
    var next := Walk(l[..n + 1], maxDistance);
    assert next == if Admits(prev, e, maxDistance) then prev + [e] else prev;
    forall i | 0 <= i < n ensures l[i] != e {
      assert Before(l[i], e);
    }
    forall x | x in prev ensures x != e {
      var k :| 0 <= k < n && l[..n][k] == x;
      assert l[k] == x;
    }
    AgreeExtend(w, l, n, prev, next, Admits(prev, e, maxDistance));
  }

  /** Appending the `n`-th cell to the walk, or not, as `w` does keeps the walk in agreement with `w`. */
  lemma AgreeExtend(w: seq<Entry>, l: seq<Entry>, n: nat, prev: seq<Entry>, next: seq<Entry>, admit: bool)
    requires n < |l| && l[n] !in prev && forall i :: 0 <= i < n ==> l[i] != l[n]
    requires forall i :: 0 <= i < n ==> (l[i] in prev <==> l[i] in w)
    requires next == if admit then prev + [l[n]] else prev
    requires admit <==> l[n] in w
    ensures forall i :: 0 <= i < n + 1 ==> (l[i] in next <==> l[i] in w)
  {
    forall i | 0 <= i < n + 1 ensures l[i] in next <==> l[i] in w {
      if admit {
        assert l[i] in next <==> l[i] in prev || l[i] == l[n];
      }
    }
  }

  /** Two lists strictly ordered by `Before` that hold the same cells of the sorted cell list are equal. */
  lemma SameCellsEqual(g: seq<Entry>, w: seq<Entry>, l: seq<Entry>)
    requires StrictlySorted(g) && StrictlySorted(w) && StrictlySorted(l)
    requires forall x :: x in g ==> x in l
    requires forall x :: x in w ==> x in l
    requires forall i :: 0 <= i < |l| ==> (l[i] in g <==> l[i] in w)
    ensures g == w
  {
    forall x ensures x in g <==> x in w {
      if x in g {
        var i :| 0 <= i < |l| && l[i] == x;
      }
      if x in w {
        var i :| 0 <= i < |l| && l[i] == x;
      }
    }
    SortedUnique(g, w);
  }

  /**
   * The converse of `GreedyMatch`'s contract: every greedy matching is the
   * walk's result, so the declarative description determines the pairs
   * `update` commits, and their order.
   */
  lemma GreedyMatchComplete(w: seq<Entry>, oc: seq<Point>, ic: seq<Point>, maxDistance: int)
    requires IsGreedyMatching(w, oc, ic, maxDistance)
    ensures w == GreedyMatch(oc, ic, maxDistance)
  {
    var l := SortedCells(oc, ic);
    AgreeUpTo(w, oc, ic, maxDistance, l, |l|);
    assert l[..|l|] == l;
    WalkSorted(l, maxDistance);
    SameCellsEqual(Walk(l, maxDistance), w, l);
  }

  /** A greedy matching `w` and the walk over the first `n` sorted cells agree on those cells. */
  lemma {:induction false} AgreeUpTo(w: seq<Entry>, oc: seq<Point>, ic: seq<Point>, maxDistance: int, l: seq<Entry>, n: nat)
    requires IsGreedyMatching(w, oc, ic, maxDistance)
    requires l == SortedCells(oc, ic) && n <= |l|
    ensures AgreesOn(w, l, n, maxDistance)
  {
    if n > 0 {
      var m := n - 1;
      AgreeUpTo(w, oc, ic, maxDistance, l, m);
      AdmitsIffCommitted(w, oc, ic, maxDistance, l, m);
      AgreeStep(w, maxDistance, l, m);
    }
  }

  /** The walk over the first `n` cells of `l` commits exactly the cells among them that `w` holds. */
  ghost predicate AgreesOn(w: seq<Entry>, l: seq<Entry>, n: nat, maxDistance: int)
    requires n <= |l|
  {
    forall i :: 0 <= i < n ==> (l[i] in Walk(l[..n], maxDistance) <==> l[i] in w)
  }

  /** Any two greedy matchings of the same matrix under the same gate are equal: the pass has no hidden choice. */
  lemma GreedyMatchingUnique(w1: seq<Entry>, w2: seq<Entry>, oc: seq<Point>, ic: seq<Point>, maxDistance: int)
    requires IsGreedyMatching(w1, oc, ic, maxDistance)
    requires IsGreedyMatching(w2, oc, ic, maxDistance)
    ensures w1 == w2
  {
    GreedyMatchComplete(w1, oc, ic, maxDistance);
    GreedyMatchComplete(w2, oc, ic, maxDistance);
  }

  /** Builds the distance matrix with the nested loops of `update`. */
  method BuildDistances(oc: seq<Point>, ic: seq<Point>) returns (D: seq<seq<nat>>)
    ensures D == DistanceMatrix(oc, ic)
  {
    D := [];
    for i := 0 to |oc|
      invariant |D| == i
      invariant forall a :: 0 <= a < i ==> D[a] == DistanceMatrix(oc, ic)[a]
    {
      var row := [];
      for j := 0 to |ic|
        invariant |row| == j
        invariant forall b :: 0 <= b < j ==> row[b] == SqDist(oc[i], ic[b])
      {
        row := row + [SqDist(oc[i], ic[j])];
      }
      D := D + [row];
    }
  }

  /** Lists the cells of a non-empty rectangular matrix row by row, as the nested loops of `update` do. */
  method BuildEntries(D: seq<seq<nat>>) returns (entries: seq<Entry>)
    requires |D| > 0 && Rectangular(D, |D[0]|)
    ensures entries == RowMajor(D, |D[0]|)
  {
    var width := |D[0]|;
    entries := [];
    for i := 0 to |D|
      invariant entries == RowMajor(D[..i], width)
    {
      for j := 0 to width
        invariant entries == RowMajor(D[..i], width) + RowEntries(D[i], i, j)
      {
        entries := entries + [Entry(D[i][j], i, j)];
      }
      assert D[..i + 1][..i] == D[..i];
    }
    assert D[..|D|] == D;
  }

  /** Inserts `x` into `s` scanning from the back, as insertion sort does. */
  method InsertEntry(s: seq<Entry>, x: Entry) returns (r: seq<Entry>)
    ensures r == Insert(s, x)
  {
    var j := |s|;
    assert s[..j] == s;
    while j > 0 && s[j - 1].dist > x.dist
      invariant 0 <= j <= |s|
      invariant Insert(s, x) == Insert(s[..j], x) + s[j..]
    {
      InsertShift(s, j, x);
      j := j - 1;
    }
    r := s[..j] + [x] + s[j..];
  }

  /** Moving the scan one place left past an element farther than `x`. */
  lemma InsertShift(s: seq<Entry>, j: nat, x: Entry)
    requires 0 < j <= |s| && s[j - 1].dist > x.dist
    ensures Insert(s[..j], x) + s[j..] == Insert(s[..j - 1], x) + s[j - 1..]
  {
    assert s[..j][..j - 1] == s[..j - 1];
    assert s[j - 1..] == [s[j - 1]] + s[j..];
  }

  /** Sorts the entries by distance, stably. */
  method SortEntries(entries: seq<Entry>) returns (sorted: seq<Entry>)
    ensures sorted == SortByDist(entries)
  {
    sorted := [];
    for i := 0 to |entries|
      invariant sorted == SortByDist(entries[..i])
    {
      assert entries[..i + 1][..i] == entries[..i];
      sorted := InsertEntry(sorted, entries[i]);
    }
    assert entries[..|entries|] == entries;
  }
}
