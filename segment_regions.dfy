/** 4-connected component labelling of a binary mask with bounding boxes and a region cap
    (`connected_components_bboxes` of the segmentation script). The mask is a rectangular grid of
    rows; `visited` is the boolean buffer the scan marks, and the queue is a sequence popped at the
    front. */
module SegmentRegions {

  /** A pixel position (row y, column x). */
  type Coord = (int, int)

  predicate Rect<T>(grid: seq<seq<T>>, w: nat) {
    forall y :: 0 <= y < |grid| ==> |grid[y]| == w
  }

  predicate InGrid(h: nat, w: nat, c: Coord) {
    0 <= c.0 < h && 0 <= c.1 < w
  }

  /** The pixel is inside the mask and set. */
  predicate On(mask: seq<seq<bool>>, w: nat, c: Coord)
    requires Rect(mask, w)
  {
    InGrid(|mask|, w, c) && mask[c.0][c.1]
  }

  /** 4-neighbourhood. */
  predicate Adjacent(a: Coord, b: Coord) {
    (a.0 == b.0 && (a.1 - b.1 == 1 || b.1 - a.1 == 1)) ||
    (a.1 == b.1 && (a.0 - b.0 == 1 || b.0 - a.0 == 1))
  }

  predicate Distinct<T(==)>(s: seq<T>) {
    forall i, j :: 0 <= i < j < |s| ==> s[i] != s[j]
  }

  function Elems<T>(s: seq<T>): set<T> {
    set x | x in s
  }

  /** Each pixel after the first touches an earlier one, so all are joined to the first by a path. */
  predicate Connected(s: seq<Coord>) {
    forall k :: 0 < k < |s| ==> JoinedEarlier(s, k)
  }

  predicate JoinedEarlier(s: seq<Coord>, k: int)
    requires 0 <= k < |s|
  {
    exists j :: 0 <= j < k && Adjacent(s[j], s[k])
  }

  /** No set pixel adjacent to a member of S lies outside S. */
  ghost predicate Closed(mask: seq<seq<bool>>, w: nat, S: set<Coord>)
    requires Rect(mask, w)
  {
    forall a, b :: a in S && On(mask, w, b) && Adjacent(a, b) ==> b in S
  }

  /** A maximal 4-connected set of set pixels, listed without repetition. */
  ghost predicate IsComponent(mask: seq<seq<bool>>, w: nat, s: seq<Coord>)
    requires Rect(mask, w)
  {
    |s| > 0 && Distinct(s) && Connected(s) &&
    (forall i :: 0 <= i < |s| ==> On(mask, w, s[i])) &&
    Closed(mask, w, Elems(s))
  }

  ghost function Grid(h: nat, w: nat): set<Coord> {
    set y, x | 0 <= y < h && 0 <= x < w :: (y, x)
  }

  /** `visited` is set exactly on the pixels of S. */
  ghost predicate VisitedIs(visited: array2<bool>, S: set<Coord>)
    reads visited
  {
    (forall c :: c in S ==> InGrid(visited.Length0, visited.Length1, c)) &&
    (forall y, x :: 0 <= y < visited.Length0 && 0 <= x < visited.Length1 ==> (visited[y, x] <==> (y, x) in S))
  }

  function Neighbours(c: Coord): seq<Coord> {
    [(c.0 - 1, c.1), (c.0 + 1, c.1), (c.0, c.1 - 1), (c.0, c.1 + 1)]
  }

  lemma AdjacentIsNeighbour(a: Coord, b: Coord)
    requires Adjacent(a, b)
    ensures b in Neighbours(a)
  {
  }

  // ---------------------------------------------------------------- bounding boxes

  datatype BBox = BBox(x: int, y: int, width: int, height: int)

  /** One entry of the result: `{"pixel_count": ..., "bbox": [xmin, ymin, width, height]}`. */
  datatype Region = Region(pixelCount: nat, bbox: BBox)

  function MinRow(s: seq<Coord>): (m: int)
    requires |s| > 0
    ensures forall i :: 0 <= i < |s| ==> m <= s[i].0
    ensures exists i :: 0 <= i < |s| && s[i].0 == m
  {
    if |s| == 1 then s[0].0
    else
      var m := MinRow(s[1..]);
      assert forall i :: 1 <= i < |s| ==> s[i] == s[1..][i - 1];
      if s[0].0 <= m then s[0].0 else m
  }

  function MaxRow(s: seq<Coord>): (m: int)
    requires |s| > 0
    ensures forall i :: 0 <= i < |s| ==> s[i].0 <= m
    ensures exists i :: 0 <= i < |s| && s[i].0 == m
  {
    if |s| == 1 then s[0].0
    else
      var m := MaxRow(s[1..]);
      assert forall i :: 1 <= i < |s| ==> s[i] == s[1..][i - 1];
      if s[0].0 >= m then s[0].0 else m
  }

  function MinCol(s: seq<Coord>): (m: int)
    requires |s| > 0
    ensures forall i :: 0 <= i < |s| ==> m <= s[i].1
    ensures exists i :: 0 <= i < |s| && s[i].1 == m
  {
    if |s| == 1 then s[0].1
    else
      var m := MinCol(s[1..]);
      assert forall i :: 1 <= i < |s| ==> s[i] == s[1..][i - 1];
      if s[0].1 <= m then s[0].1 else m
  }

  function MaxCol(s: seq<Coord>): (m: int)
    requires |s| > 0
    ensures forall i :: 0 <= i < |s| ==> s[i].1 <= m
    ensures exists i :: 0 <= i < |s| && s[i].1 == m
  {
    if |s| == 1 then s[0].1
    else
      var m := MaxCol(s[1..]);
      assert forall i :: 1 <= i < |s| ==> s[i] == s[1..][i - 1];
      if s[0].1 >= m then s[0].1 else m
  }

  /** The region reported for the pixels `coords` of one component. */
  function RegionOf(coords: seq<Coord>): (r: Region)
    requires |coords| > 0
    ensures r.pixelCount == |coords|
    // the box holds every pixel of the region ...
    ensures forall i :: 0 <= i < |coords| ==>
      r.bbox.x <= coords[i].1 < r.bbox.x + r.bbox.width && r.bbox.y <= coords[i].0 < r.bbox.y + r.bbox.height
    // ... and touches the region on all four sides
    ensures exists i :: 0 <= i < |coords| && coords[i].1 == r.bbox.x
    ensures exists i :: 0 <= i < |coords| && coords[i].1 == r.bbox.x + r.bbox.width - 1
    ensures exists i :: 0 <= i < |coords| && coords[i].0 == r.bbox.y
    ensures exists i :: 0 <= i < |coords| && coords[i].0 == r.bbox.y + r.bbox.height - 1
  {
    var ymin := MinRow(coords);
    var ymax := MaxRow(coords);
    var xmin := MinCol(coords);
    var xmax := MaxCol(coords);
    Region(|coords|, BBox(xmin, ymin, xmax - xmin + 1, ymax - ymin + 1))
  }

  // ---------------------------------------------------------------- flood fill

  /** One neighbour test: an in-bounds, unvisited, set pixel is marked and queued. */
  method Visit(mask: seq<seq<bool>>, w: nat, visited: array2<bool>, n: Coord, ghost D: set<Coord>)
    returns (queued: bool)
    requires Rect(mask, w) && visited.Length0 == |mask| && visited.Length1 == w
    requires VisitedIs(visited, D)
    modifies visited
    ensures queued <==> On(mask, w, n) && n !in D
    ensures VisitedIs(visited, if queued then D + {n} else D)
  {
    if 0 <= n.0 < visited.Length0 && 0 <= n.1 < visited.Length1 && !visited[n.0, n.1] && mask[n.0][n.1] {
      visited[n.0, n.1] := true;
      queued := true;
    } else {
      queued := false;
    }
  }

  /** The four neighbour tests of a popped pixel `c`, in the order up, down, left, right. */
  method Expand(mask: seq<seq<bool>>, w: nat, visited: array2<bool>, c: Coord, ghost D: set<Coord>)
    returns (added: seq<Coord>, ghost D': set<Coord>)
    requires Rect(mask, w) && visited.Length0 == |mask| && visited.Length1 == w
    requires VisitedIs(visited, D)
    modifies visited
    ensures VisitedIs(visited, D') && D' == D + Elems(added)
    ensures Distinct(added)
    ensures forall i :: 0 <= i < |added| ==> On(mask, w, added[i]) && added[i] !in D && Adjacent(c, added[i])
    ensures forall b :: On(mask, w, b) && Adjacent(c, b) ==> b in D'
  {
    added := [];
    D' := D;
    var ns := Neighbours(c);
    var k := 0;
    while k < 4
      invariant 0 <= k <= 4
      invariant VisitedIs(visited, D') && D' == D + Elems(added)
      invariant Distinct(added)
      invariant forall i :: 0 <= i < |added| ==> On(mask, w, added[i]) && added[i] !in D && Adjacent(c, added[i])
      invariant forall j :: 0 <= j < k && On(mask, w, ns[j]) ==> ns[j] in D'
    {
      var q := Visit(mask, w, visited, ns[k], D');
      if q {
        assert ns[k] !in Elems(added);
        added := added + [ns[k]];
        D' := D' + {ns[k]};
      }
      k := k + 1;
    }
    forall b | On(mask, w, b) && Adjacent(c, b) ensures b in D' {
      AdjacentIsNeighbour(c, b);
    }
  }

  lemma ConnectedExtend(s: seq<Coord>, added: seq<Coord>, c: Coord)
    requires Connected(s) && c in s
    requires forall i :: 0 <= i < |added| ==> Adjacent(c, added[i])
    ensures Connected(s + added)
  {
    var t := s + added;
    var j :| 0 <= j < |s| && s[j] == c;
    forall k | 0 < k < |t| ensures JoinedEarlier(t, k) {
      if k < |s| {
        assert JoinedEarlier(s, k);
        var i :| 0 <= i < k && Adjacent(s[i], s[k]);
        assert t[i] == s[i] && t[k] == s[k];
      } else {
        assert t[j] == c && t[k] == added[k - |s|];
      }
    }
  }

  lemma GridFinite(visited: array2<bool>, S: set<Coord>)
    requires VisitedIs(visited, S)
    ensures S <= Grid(visited.Length0, visited.Length1)
  {
  }

  /** The breadth-first fill from `start`. `done` is the set of pixels already visited; it is closed. */
  method Flood(mask: seq<seq<bool>>, w: nat, visited: array2<bool>, start: Coord, ghost done: set<Coord>)
    returns (coords: seq<Coord>)
    requires Rect(mask, w) && visited.Length0 == |mask| && visited.Length1 == w
    requires On(mask, w, start) && start !in done
    requires VisitedIs(visited, done) && Closed(mask, w, done)
    modifies visited
    ensures VisitedIs(visited, done + Elems(coords))
    ensures |coords| > 0 && coords[0] == start && Distinct(coords) && Connected(coords)
    ensures OnOutside(mask, w, coords, done)
    ensures PoppedClosed(mask, w, coords, done + Elems(coords))
  {
    visited[start.0, start.1] := true;
    var dq := [start];
    coords := [];
    ghost var D := done + {start};
    while dq != []
      invariant VisitedIs(visited, D) && D == done + Elems(coords + dq)
      invariant |coords + dq| > 0 && (coords + dq)[0] == start
      invariant Distinct(coords + dq) && Connected(coords + dq)
      invariant OnOutside(mask, w, coords + dq, done)
      invariant PoppedClosed(mask, w, coords, D)
      decreases Grid(|mask|, w) - D, |dq|
    {
      ghost var order := coords + dq;
      ghost var D0 := D;
      var c := dq[0];
      dq := dq[1..];
      coords := coords + [c];
      assert coords + dq == order;
      var added;
      added, D := Expand(mask, w, visited, c, D);
      assert coords + dq + added == order + added;
      dq := dq + added;
      assert coords + dq == order + added;
      FloodStep(mask, w, done, order, added, c, D0, D);
      PoppedStep(mask, w, coords[..|coords| - 1], c, D0, D);
      assert coords[..|coords| - 1] + [c] == coords;
      GridFinite(visited, D);
      assert Grid(|mask|, w) - D < Grid(|mask|, w) - D0 || D == D0;
    }
    assert coords + dq == coords;
  }

  /** Every pixel of s is set and outside `done`. */
  predicate OnOutside(mask: seq<seq<bool>>, w: nat, s: seq<Coord>, done: set<Coord>)
    requires Rect(mask, w)
  {
    forall i :: 0 <= i < |s| ==> On(mask, w, s[i]) && s[i] !in done
  }

  /** Every set neighbour of a popped pixel has been visited. */
  ghost predicate PoppedClosed(mask: seq<seq<bool>>, w: nat, coords: seq<Coord>, D: set<Coord>)
    requires Rect(mask, w)
  {
    forall a, b :: a in coords && On(mask, w, b) && Adjacent(a, b) ==> b in D
  }

  lemma PoppedStep(mask: seq<seq<bool>>, w: nat, coords: seq<Coord>, c: Coord, D0: set<Coord>, D: set<Coord>)
    requires Rect(mask, w) && PoppedClosed(mask, w, coords, D0) && D0 <= D
    requires forall b :: On(mask, w, b) && Adjacent(c, b) ==> b in D
    ensures PoppedClosed(mask, w, coords + [c], D)
  {
  }

  /** Appending the newly queued neighbours of `c` keeps the fill order duplicate-free and connected. */
  lemma FloodStep(mask: seq<seq<bool>>, w: nat, done: set<Coord>, order: seq<Coord>, added: seq<Coord>,
                  c: Coord, D0: set<Coord>, D: set<Coord>)
    requires Rect(mask, w)
    requires c in order && Distinct(order) && Connected(order) && D0 == done + Elems(order)
    requires Distinct(added) && D == D0 + Elems(added)
    requires forall i :: 0 <= i < |added| ==> On(mask, w, added[i]) && added[i] !in D0 && Adjacent(c, added[i])
    requires OnOutside(mask, w, order, done)
    ensures Distinct(order + added) && Connected(order + added)
    ensures OnOutside(mask, w, order + added, done)
    ensures D == done + Elems(order + added)
    ensures D == D0 <==> added == []
    ensures D0 <= D
  {
    ConnectedExtend(order, added, c);
    var t := order + added;
    forall i, j | 0 <= i < j < |t| ensures t[i] != t[j] {
      if j >= |order| && i < |order| {
        assert t[i] in Elems(order) && t[j] == added[j - |order|];
      } else if j >= |order| {
        assert t[i] == added[i - |order|] && t[j] == added[j - |order|];
      } else {
        assert t[i] == order[i] && t[j] == order[j];
      }
    }
    assert Elems(t) == Elems(order) + Elems(added);
    if added != [] {
      assert added[0] in D && added[0] !in D0;
    }
  }

  // ---------------------------------------------------------------- the scan

  lemma NewComponent(mask: seq<seq<bool>>, w: nat, done: set<Coord>, coords: seq<Coord>)
    requires Rect(mask, w) && Closed(mask, w, done)
    requires |coords| > 0 && Distinct(coords) && Connected(coords)
    requires OnOutside(mask, w, coords, done)
    requires PoppedClosed(mask, w, coords, done + Elems(coords))
    ensures IsComponent(mask, w, coords)
    ensures Closed(mask, w, done + Elems(coords))
  {
    forall a, b | a in Elems(coords) && On(mask, w, b) && Adjacent(a, b) ensures b in Elems(coords) {
      ClosedBack(mask, w, done, a, b);
    }
  }

  /** Adjacency is symmetric, so a closed set also holds every set pixel that touches it. */
  lemma ClosedBack(mask: seq<seq<bool>>, w: nat, S: set<Coord>, a: Coord, b: Coord)
    requires Rect(mask, w) && Closed(mask, w, S)
    requires On(mask, w, a) && Adjacent(a, b)
    ensures b in S ==> a in S
  {
    assert Adjacent(b, a);
  }

  /** What holds between two scan steps: each component found is a maximal connected set of set
      pixels and carries its region, the components are disjoint, and `done` is their union. */
  ghost predicate Found(mask: seq<seq<bool>>, w: nat, regions: seq<Region>, comps: seq<seq<Coord>>, done: set<Coord>)
    requires Rect(mask, w)
  {
    Closed(mask, w, done) &&
    |regions| == |comps| &&
    (forall i :: 0 <= i < |comps| ==> IsComponent(mask, w, comps[i]) && regions[i] == RegionOf(comps[i])) &&
    (forall i, j :: 0 <= i < j < |comps| ==> Elems(comps[i]) !! Elems(comps[j])) &&
    (forall c :: c in done <==> exists i :: 0 <= i < |comps| && c in comps[i])
  }

  lemma FoundStep(mask: seq<seq<bool>>, w: nat, regions: seq<Region>, comps: seq<seq<Coord>>, done: set<Coord>,
                  coords: seq<Coord>)
    requires Rect(mask, w) && Found(mask, w, regions, comps, done)
    requires |coords| > 0 && Distinct(coords) && Connected(coords)
    requires OnOutside(mask, w, coords, done)
    requires PoppedClosed(mask, w, coords, done + Elems(coords))
    ensures Found(mask, w, regions + [RegionOf(coords)], comps + [coords], done + Elems(coords))
  {
    NewComponent(mask, w, done, coords);
    var comps' := comps + [coords];
    var regions' := regions + [RegionOf(coords)];
    forall i | 0 <= i < |comps'| ensures IsComponent(mask, w, comps'[i]) && regions'[i] == RegionOf(comps'[i]) {
      if i < |comps| {
        assert comps'[i] == comps[i] && regions'[i] == regions[i];
      }
    }
    forall i, j | 0 <= i < j < |comps'| ensures Elems(comps'[i]) !! Elems(comps'[j]) {
      if j == |comps| {
        assert comps'[i] == comps[i];
        forall c | c in comps[i] ensures c in done { }
      } else {
        assert comps'[i] == comps[i] && comps'[j] == comps[j];
      }
    }
    forall c ensures c in done + Elems(coords) <==> exists i :: 0 <= i < |comps'| && c in comps'[i] {
      if c in done {
        var i :| 0 <= i < |comps| && c in comps[i];
        assert comps'[i] == comps[i];
      } else if c in coords {
        assert comps'[|comps|] == coords;
      } else {
        forall i | 0 <= i < |comps'| ensures c !in comps'[i] {
          if i < |comps| {
            assert comps'[i] == comps[i];
          }
        }
      }
    }
  }

  /** Pixels in rows before y, or in row y before column x (row-major scan order). */
  predicate ScannedBefore(c: Coord, y: int, x: int) {
    c.0 < y || (c.0 == y && c.1 < x)
  }

  lemma ScanAdvance(mask: seq<seq<bool>>, w: nat, y: int, x: int, before: set<Coord>, done: set<Coord>)
    requires Rect(mask, w) && before <= done
    requires forall c :: On(mask, w, c) && ScannedBefore(c, y, x) ==> c in before
    requires On(mask, w, (y, x)) ==> (y, x) in done
    ensures forall c :: On(mask, w, c) && ScannedBefore(c, y, x + 1) ==> c in done
  {
  }

  /** The components come in the order the row-major scan starts them: every set pixel scanned
      before the first pixel of a component lies in an earlier component. */
  ghost predicate ScanOrdered(mask: seq<seq<bool>>, w: nat, comps: seq<seq<Coord>>)
    requires Rect(mask, w)
  {
    forall i, c {:trigger ScannedBefore(c, comps[i][0].0, comps[i][0].1)} ::
      0 <= i < |comps| && |comps[i]| > 0 && On(mask, w, c) && ScannedBefore(c, comps[i][0].0, comps[i][0].1) ==>
        exists j :: 0 <= j < i && c in comps[j]
  }

  /** A component started at (y, x), once every set pixel scanned before (y, x) is found, keeps the
      scan order. */
  lemma OrderedStep(mask: seq<seq<bool>>, w: nat, comps: seq<seq<Coord>>, done: set<Coord>,
                    coords: seq<Coord>, y: int, x: int)
    requires Rect(mask, w) && ScanOrdered(mask, w, comps)
    requires forall c :: c in done <==> exists i :: 0 <= i < |comps| && c in comps[i]
    requires |coords| > 0 && coords[0] == (y, x)
    requires forall c :: On(mask, w, c) && ScannedBefore(c, y, x) ==> c in done
    ensures ScanOrdered(mask, w, comps + [coords])
  {
    var comps': seq<seq<Coord>> := comps + [coords];
    forall i: int, c: Coord | 0 <= i < |comps'| && |comps'[i]| > 0 && On(mask, w, c) && ScannedBefore(c, comps'[i][0].0, comps'[i][0].1)
      ensures exists j :: 0 <= j < i && c in comps'[j]
    {
      if i < |comps| {
        assert comps'[i] == comps[i];
        var j :| 0 <= j < i && c in comps[j];
        assert comps'[j] == comps[j];
      } else {
        assert c in done;
        var j :| 0 <= j < |comps| && c in comps[j];
        assert comps'[j] == comps[j];
      }
    }
  }

  /** Two different set pixels that no earlier component holds: in scan order, the one scanned first
      is the one that a component starting at the other cannot hold. */
  lemma StartFirst(mask: seq<seq<bool>>, w: nat, comps: seq<seq<Coord>>, i: int, b: Coord)
    requires Rect(mask, w) && ScanOrdered(mask, w, comps)
    requires 0 <= i < |comps| && |comps[i]| > 0 && On(mask, w, b) && b != comps[i][0]
    requires forall k :: 0 <= k < i ==> b !in comps[k]
    ensures ScannedBefore(comps[i][0], b.0, b.1)
  {
    var a := comps[i][0];
    if !ScannedBefore(a, b.0, b.1) {
      assert ScannedBefore(b, a.0, a.1);
    }
  }

  /** In scan order, the components start at increasing row-major positions, and each starts at
      its own row-major first pixel. */
  lemma StartsAscending(mask: seq<seq<bool>>, w: nat, comps: seq<seq<Coord>>)
    requires Rect(mask, w) && ScanOrdered(mask, w, comps)
    requires forall i :: 0 <= i < |comps| ==> IsComponent(mask, w, comps[i])
    requires forall i, j :: 0 <= i < j < |comps| ==> Elems(comps[i]) !! Elems(comps[j])
    ensures forall i, j :: 0 <= i < j < |comps| ==>
      |comps[i]| > 0 && |comps[j]| > 0 && ScannedBefore(comps[i][0], comps[j][0].0, comps[j][0].1)
    ensures forall i, k :: 0 <= i < |comps| && 0 < k < |comps[i]| ==>
      ScannedBefore(comps[i][0], comps[i][k].0, comps[i][k].1)
  {
    forall i, j | 0 <= i < j < |comps|
      ensures |comps[i]| > 0 && |comps[j]| > 0 && ScannedBefore(comps[i][0], comps[j][0].0, comps[j][0].1)
    {
      assert IsComponent(mask, w, comps[i]) && IsComponent(mask, w, comps[j]);
      var b := comps[j][0];
      assert b in Elems(comps[j]);
      forall k | 0 <= k <= i ensures b !in comps[k] {
        assert Elems(comps[k]) !! Elems(comps[j]);
      }
      StartFirst(mask, w, comps, i, b);
    }
    forall i, k | 0 <= i < |comps| && 0 < k < |comps[i]|
      ensures ScannedBefore(comps[i][0], comps[i][k].0, comps[i][k].1)
    {
      assert IsComponent(mask, w, comps[i]);
      var b := comps[i][k];
      assert b in Elems(comps[i]);
      forall j | 0 <= j < i ensures b !in comps[j] {
        assert Elems(comps[j]) !! Elems(comps[i]);
      }
      StartFirst(mask, w, comps, i, b);
    }
  }

  /** The inner loop of the scan over row y. `stop` is set when the region cap is reached. */
  method ScanRow(mask: seq<seq<bool>>, w: nat, visited: array2<bool>, y: nat, maxRegions: int,
                 regions0: seq<Region>, ghost comps0: seq<seq<Coord>>, ghost done0: set<Coord>)
    returns (regions: seq<Region>, ghost comps: seq<seq<Coord>>, ghost done: set<Coord>, stop: bool)
    requires Rect(mask, w) && visited.Length0 == |mask| && visited.Length1 == w && y < |mask|
    requires VisitedIs(visited, done0) && Found(mask, w, regions0, comps0, done0) && ScanOrdered(mask, w, comps0)
    requires |regions0| == 0 || |regions0| < maxRegions
    requires forall c :: On(mask, w, c) && ScannedBefore(c, y, 0) ==> c in done0
    modifies visited
    ensures VisitedIs(visited, done) && Found(mask, w, regions, comps, done) && ScanOrdered(mask, w, comps)
    ensures |regions0| <= |regions|
    ensures stop ==> |regions| >= maxRegions && 0 < |regions| <= (if maxRegions > 1 then maxRegions else 1)
    ensures !stop ==> (|regions| == 0 || |regions| < maxRegions)
    ensures !stop ==> forall c :: On(mask, w, c) && ScannedBefore(c, y + 1, 0) ==> c in done
  {
    regions, comps, done := regions0, comps0, done0;
    stop := false;
    var x := 0;
    while x < w
      invariant 0 <= x <= w
      invariant VisitedIs(visited, done) && Found(mask, w, regions, comps, done) && ScanOrdered(mask, w, comps)
      invariant |regions| == 0 || |regions| < maxRegions
      invariant |regions0| <= |regions|
      invariant forall c :: On(mask, w, c) && ScannedBefore(c, y, x) ==> c in done
    {
      ghost var before := done;
      if mask[y][x] && !visited[y, x] {
        var coords := Flood(mask, w, visited, (y, x), done);
        OrderedStep(mask, w, comps, done, coords, y, x);
        FoundStep(mask, w, regions, comps, done, coords);
        regions := regions + [RegionOf(coords)];
        comps := comps + [coords];
        done := done + Elems(coords);
        assert coords[0] == (y, x);
        if |regions| >= maxRegions {
          stop := true;
          return;
        }
      }
      assert On(mask, w, (y, x)) ==> (y, x) in done;
      ScanAdvance(mask, w, y, x, before, done);
      x := x + 1;
    }
  }

  /** `connected_components_bboxes(bin_mask, max_regions)`. `comps` lists the pixels of each region
      in fill order. */
  method ConnectedComponentsBboxes(mask: seq<seq<bool>>, w: nat, maxRegions: int)
    returns (regions: seq<Region>, ghost comps: seq<seq<Coord>>)
    requires Rect(mask, w)
    ensures |regions| == |comps|
    ensures forall i :: 0 <= i < |comps| ==> IsComponent(mask, w, comps[i]) && regions[i] == RegionOf(comps[i])
    ensures forall i, j :: 0 <= i < j < |comps| ==> Elems(comps[i]) !! Elems(comps[j])
    ensures |regions| <= if maxRegions > 1 then maxRegions else 1
    ensures |regions| < maxRegions ==> forall c :: On(mask, w, c) ==> exists i :: 0 <= i < |comps| && c in comps[i]
    ensures |regions| == 0 ==> forall c :: !On(mask, w, c)
    ensures ScanOrdered(mask, w, comps)
    ensures forall i, j :: 0 <= i < j < |comps| ==>
      |comps[i]| > 0 && |comps[j]| > 0 && ScannedBefore(comps[i][0], comps[j][0].0, comps[j][0].1)
    ensures forall i, k :: 0 <= i < |comps| && 0 < k < |comps[i]| ==> ScannedBefore(comps[i][0], comps[i][k].0, comps[i][k].1)
  {
    var h := |mask|;
    var visited := new bool[h, w]((_, _) => false);
    regions := [];
    comps := [];
    ghost var done: set<Coord> := {};
    var y := 0;
    while y < h
      invariant 0 <= y <= h
      invariant VisitedIs(visited, done) && Found(mask, w, regions, comps, done) && ScanOrdered(mask, w, comps)
      invariant |regions| == 0 || |regions| < maxRegions
      invariant forall c :: On(mask, w, c) && ScannedBefore(c, y, 0) ==> c in done
    {
      var stop;
      regions, comps, done, stop := ScanRow(mask, w, visited, y, maxRegions, regions, comps, done);
      if stop {
        StartsAscending(mask, w, comps);
        return;
      }
      y := y + 1;
    }
    forall c | On(mask, w, c) ensures c in done {
      assert ScannedBefore(c, y, 0);
    }
    StartsAscending(mask, w, comps);
  }
}
