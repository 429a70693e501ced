/** Per-detection depth from a time-of-flight (ToF) frame (src/m7/depth_estimation.cc):
    select the ToF grid cells a detection's pixel box overlaps, keep the
    readings in the sensor's usable range, drop median outliers when there
    are at least three, and average the rest; -1 means "no reading". */
module DepthEstimation {
  import opened Wrappers
  import opened SeqMath

  /** Readings at or above this many millimetres are out of range. */
  const MaxValidDepthMm: int := 4000
  /** The "no estimate" value compute_depth returns. */
  const NoDepth: real := -1.0

  type U16 = x: int | 0 <= x < 0x1_0000

  /** C++ conversion of an integer to uint16_t (two's complement wrap). */
  function ToU16(x: int): (r: U16)
    ensures 0 <= x < 0x1_0000 ==> r == x
    ensures -0x8000 <= x < 0 ==> r == x + 0x1_0000
  {
    x % 0x1_0000
  }

  /** Inclusive pixel rectangle. */
  datatype Rect = Rect(xMin: int, yMin: int, xMax: int, yMax: int)

  /** Detection box already converted to uint16 pixel coordinates. */
  datatype PixelBox = PixelBox(xMin: U16, yMin: U16, xMax: U16, yMax: U16)

  /** Image geometry of the frame the detection came from (uint32 fields). */
  datatype Camera = Camera(width: nat, height: nat)

  /** Cell regions of the ToF grid (one pixel rectangle per cell) and the
      rectangle-overlap test; both are tables outside this model. */
  datatype Grid = Grid(regions: seq<Rect>, overlaps: (Rect, Rect) -> bool)

  /** The grid loop counts cells with a uint8_t index, so it needs fewer than 256 cells to end. */
  predicate GridOk(g: Grid) {
    |g.regions| < 256
  }

  /** A ToF frame covers the grid when it has a distance for every cell. */
  predicate CoversGrid(distanceMm: seq<int>, g: Grid) {
    |distanceMm| >= |g.regions|
  }

  /** Clamp limit `uint16_t(extent - 1)` for an image extent. */
  function ClampLimit(extent: nat): U16 {
    ToU16(extent - 1)
  }

  function MinU16(a: U16, b: U16): U16 {
    if a <= b then a else b
  }

  /** The box clamped to the image: each coordinate is the smaller of itself and extent-1. */
  function ClampBox(b: PixelBox, cam: Camera): (r: PixelBox)
    ensures r.xMin <= ClampLimit(cam.width) && r.xMax <= ClampLimit(cam.width)
    ensures r.yMin <= ClampLimit(cam.height) && r.yMax <= ClampLimit(cam.height)
    ensures r.xMin <= b.xMin && r.xMax <= b.xMax && r.yMin <= b.yMin && r.yMax <= b.yMax
    ensures b.xMin <= ClampLimit(cam.width) ==> r.xMin == b.xMin
    ensures b.xMax <= ClampLimit(cam.width) ==> r.xMax == b.xMax
    ensures b.yMin <= ClampLimit(cam.height) ==> r.yMin == b.yMin
    ensures b.yMax <= ClampLimit(cam.height) ==> r.yMax == b.yMax
    ensures b.xMin > ClampLimit(cam.width) ==> r.xMin == ClampLimit(cam.width)
    ensures b.xMax > ClampLimit(cam.width) ==> r.xMax == ClampLimit(cam.width)
    ensures b.yMin > ClampLimit(cam.height) ==> r.yMin == ClampLimit(cam.height)
    ensures b.yMax > ClampLimit(cam.height) ==> r.yMax == ClampLimit(cam.height)
  {
    PixelBox(MinU16(b.xMin, ClampLimit(cam.width)), MinU16(b.yMin, ClampLimit(cam.height)),
             MinU16(b.xMax, ClampLimit(cam.width)), MinU16(b.yMax, ClampLimit(cam.height)))
  }

  /** For a real image (1 to 65536 pixels per side) the clamped box lies inside it. */
  lemma ClampedBoxInsideImage(b: PixelBox, cam: Camera)
    requires 1 <= cam.width <= 0x1_0000 && 1 <= cam.height <= 0x1_0000
    ensures var r := ClampBox(b, cam);
      r.xMin <= cam.width - 1 && r.xMax <= cam.width - 1 &&
      r.yMin <= cam.height - 1 && r.yMax <= cam.height - 1
  {
  }

  function AsRect(b: PixelBox): Rect {
    Rect(b.xMin, b.yMin, b.xMax, b.yMax)
  }

  /** Cells `k` and up whose region overlaps `box`, in index order. */
  function CellsFrom(box: Rect, g: Grid, k: nat): (r: seq<nat>)
    requires k <= |g.regions|
    ensures StrictlyIncreasing(r)
    ensures forall i :: 0 <= i < |r| ==> k <= r[i] < |g.regions|
    ensures forall c :: c in r <==> k <= c < |g.regions| && g.overlaps(box, g.regions[c])
    decreases |g.regions| - k
  {
    if k == |g.regions| then []
    else
      var rest := CellsFrom(box, g, k + 1);
      if g.overlaps(box, g.regions[k]) then [k] + rest else rest
  }

  /** find_overlapping_cells: indices of the grid cells the clamped box overlaps,
      strictly ascending (so unique), each a valid cell index. */
  function FindOverlappingCells(b: PixelBox, cam: Camera, g: Grid): (r: seq<nat>)
    requires GridOk(g)
    ensures StrictlyIncreasing(r)
    ensures forall i :: 0 <= i < |r| ==> r[i] < |g.regions|
    ensures forall c :: c in r <==> 0 <= c < |g.regions| && g.overlaps(AsRect(ClampBox(b, cam)), g.regions[c])
  {
    CellsFrom(AsRect(ClampBox(b, cam)), g, 0)
  }

  /** A reading is usable when, read as uint16_t, it is in (0, 4000). */
  predicate Usable(d: int) {
    0 < ToU16(d) < MaxValidDepthMm
  }

  /** Positions i of `cells` whose reading is usable and reads `v` as uint16_t. */
  function UsableAt(cells: seq<nat>, distanceMm: seq<int>, v: int): set<nat>
    requires forall i :: 0 <= i < |cells| ==> cells[i] < |distanceMm|
  {
    set i: nat | i < |cells| && Usable(distanceMm[cells[i]]) && ToU16(distanceMm[cells[i]]) == v
  }

  /** The usable readings of `cells`, as uint16_t millimetres, in cell order:
      each value occurs exactly as often as there are overlapped cells with
      that usable reading. */
  function UsableReadings(cells: seq<nat>, distanceMm: seq<int>): (r: seq<int>)
    requires forall i :: 0 <= i < |cells| ==> cells[i] < |distanceMm|
    ensures |r| <= |cells|
    ensures AllWithin(r, 1, MaxValidDepthMm - 1)
    ensures forall x :: x in r <==> exists i :: 0 <= i < |cells| && Usable(distanceMm[cells[i]]) && x == ToU16(distanceMm[cells[i]])
    ensures forall v :: multiset(r)[v] == |UsableAt(cells, distanceMm, v)|
  {
    if |cells| == 0 then
      assert forall v :: UsableAt(cells, distanceMm, v) == {};
      []
    else
      var rest := UsableReadings(cells[1..], distanceMm);
      var d := distanceMm[cells[0]];
      var r := if Usable(d) then [ToU16(d)] + rest else rest;
      UsableCountStep(cells, distanceMm, rest, r);
      UsableMembership(cells, distanceMm, r);
      r
  }

  /** A value occurs in a list counting the usable cells exactly when some
      cell has that usable reading; every such value is then in (0, 4000). */
  lemma UsableMembership(cells: seq<nat>, distanceMm: seq<int>, r: seq<int>)
    requires forall i :: 0 <= i < |cells| ==> cells[i] < |distanceMm|
    requires forall v :: multiset(r)[v] == |UsableAt(cells, distanceMm, v)|
    ensures AllWithin(r, 1, MaxValidDepthMm - 1)
    ensures forall x :: x in r <==> exists i :: 0 <= i < |cells| && Usable(distanceMm[cells[i]]) && x == ToU16(distanceMm[cells[i]])
  {
    forall x ensures x in r <==> exists i :: 0 <= i < |cells| && Usable(distanceMm[cells[i]]) && x == ToU16(distanceMm[cells[i]]) {
      assert x in r <==> multiset(r)[x] > 0;
      if x in r {
        var i :| i in UsableAt(cells, distanceMm, x);
      }
      if exists i :: 0 <= i < |cells| && Usable(distanceMm[cells[i]]) && x == ToU16(distanceMm[cells[i]]) {
        var i :| 0 <= i < |cells| && Usable(distanceMm[cells[i]]) && x == ToU16(distanceMm[cells[i]]);
        assert i in UsableAt(cells, distanceMm, x);
      }
    }
    forall k | 0 <= k < |r| ensures 1 <= r[k] <= MaxValidDepthMm - 1 {
      assert r[k] in r;
    }
  }

  /** The per-value count carries over from the tail of `cells` to `cells`. */
  lemma UsableCountStep(cells: seq<nat>, distanceMm: seq<int>, rest: seq<int>, r: seq<int>)
    requires |cells| > 0
    requires forall i :: 0 <= i < |cells| ==> cells[i] < |distanceMm|
    requires forall v :: multiset(rest)[v] == |UsableAt(cells[1..], distanceMm, v)|
    requires var d := distanceMm[cells[0]]; r == if Usable(d) then [ToU16(d)] + rest else rest
    ensures forall v :: multiset(r)[v] == |UsableAt(cells, distanceMm, v)|
  {
    forall v ensures multiset(r)[v] == |UsableAt(cells, distanceMm, v)| {
      UsableAtStep(cells, distanceMm, v);
    }
  }

  /** Peeling the first cell off: its own contribution plus the rest, shifted by one. */
  lemma UsableAtStep(cells: seq<nat>, distanceMm: seq<int>, v: int)
    requires |cells| > 0
    requires forall i :: 0 <= i < |cells| ==> cells[i] < |distanceMm|
    ensures |UsableAt(cells, distanceMm, v)| ==
      (if Usable(distanceMm[cells[0]]) && ToU16(distanceMm[cells[0]]) == v then 1 else 0) + |UsableAt(cells[1..], distanceMm, v)|
  {
    var all := UsableAt(cells, distanceMm, v);
    var tail := UsableAt(cells[1..], distanceMm, v);
    ShiftCard(tail);
    UsableAtShift(cells, distanceMm, v);
    if 0 in all {
      assert all == Shift(tail) + {0};
    } else {
      assert all == Shift(tail);
    }
  }

  lemma UsableAtShift(cells: seq<nat>, distanceMm: seq<int>, v: int)
    requires |cells| > 0
    requires forall i :: 0 <= i < |cells| ==> cells[i] < |distanceMm|
    ensures UsableAt(cells, distanceMm, v) - {0} == Shift(UsableAt(cells[1..], distanceMm, v))
  {
    var all := UsableAt(cells, distanceMm, v);
    var tail := UsableAt(cells[1..], distanceMm, v);
    forall i | i in all - {0} ensures i in Shift(tail) {
      assert cells[1..][i - 1] == cells[i];
      assert i - 1 in tail;
    }
    forall i | i in Shift(tail) ensures i in all - {0} {
      var j :| j in tail && i == j + 1;
      assert cells[1..][j] == cells[i];
    }
  }

  /** Every position moved one place on. */
  function Shift(b: set<nat>): set<nat> {
    set j | j in b :: j + 1
  }

  /** Moving every position one place on keeps the number of positions. */
  lemma {:induction false} ShiftCard(b: set<nat>)
    ensures |Shift(b)| == |b|
    decreases |b|
  {
    if b != {} {
      var x :| x in b;
      var b' := b - {x};
      ShiftCard(b');
      forall i | i in Shift(b) ensures i in Shift(b') + {x + 1} {
        var j :| j in b && i == j + 1;
        if j != x { assert j in b'; }
      }
      forall i | i in Shift(b') + {x + 1} ensures i in Shift(b) {
        if i != x + 1 { var j :| j in b' && i == j + 1; }
      }
      assert Shift(b) == Shift(b') + {x + 1};
      assert x + 1 !in Shift(b');
    }
  }


  /** The median as compute_depth picks it: element n/2 of the sorted readings. */
  function Median(s: seq<int>): (m: int)
    requires |s| > 0
    ensures m in s
    ensures CountAtMost(s, m - 1) <= |s| / 2 < CountAtMost(s, m)
  {
    var sorted := Sort(s);
    assert sorted[|s| / 2] in multiset(sorted);
    RankOfSorted(s, sorted, |s| / 2);
    sorted[|s| / 2]
  }

  function Abs(x: int): nat {
    if x < 0 then -x else x
  }

  /** `d` is not an outlier: |d - m| <= 0.25 * m, stated exactly in integers
      (uint16_t values and the factor 0.25 are exact in single precision). */
  predicate NearMedian(d: int, m: int) {
    4 * Abs(d - m) <= m
  }

  /** The readings that are not outliers with respect to `m`, in their original order. */
  function KeepNear(s: seq<int>, m: int): (r: seq<int>)
    ensures |r| <= |s|
    ensures forall x :: x in r <==> x in s && NearMedian(x, m)
    ensures forall v :: multiset(r)[v] == if NearMedian(v, m) then multiset(s)[v] else 0
  {
    if |s| == 0 then []
    else
      var rest := KeepNear(s[1..], m);
      assert forall x :: x in s <==> x == s[0] || x in s[1..];
      assert s == [s[0]] + s[1..];
      assert multiset(s) == multiset{s[0]} + multiset(s[1..]);
      if NearMedian(s[0], m) then [s[0]] + rest else rest
  }

  /** Readings that survive outlier removal: all of them when there are at
      most two, otherwise those near the median. */
  function Survivors(s: seq<int>): (r: seq<int>)
    ensures forall x :: x in r ==> x in s
    ensures |s| <= 2 ==> r == s
    ensures |s| > 2 ==> forall v :: multiset(r)[v] == if NearMedian(v, Median(s)) then multiset(s)[v] else 0
  {
    if |s| > 2 then KeepNear(s, Median(s)) else s
  }

  /** The median is never an outlier of itself, so outlier removal never
      empties a non-empty list. */
  lemma SurvivorsNonEmpty(s: seq<int>)
    requires |s| > 0
    requires forall i :: 0 <= i < |s| ==> s[i] >= 0
    ensures |Survivors(s)| > 0
    ensures |s| > 2 ==> Median(s) in Survivors(s)
  {
    if |s| > 2 {
      var m := Median(s);
      assert NearMedian(m, m);
    }
  }

  /** Outlier removal is a single pass: running it again on its own output
      can drop more readings, because the median moves. */
  lemma SurvivorsNotIdempotent()
    ensures Survivors([1, 1, 75, 100, 125, 125]) == [75, 100, 125, 125]
    ensures Survivors([75, 100, 125, 125]) == [100, 125, 125]
    ensures exists s: seq<int> :: Survivors(Survivors(s)) != Survivors(s)
  {
    var s := [1, 1, 75, 100, 125, 125];
    var once := [75, 100, 125, 125];
    FirstPass(s, once);
    SecondPass(once, [100, 125, 125]);
    assert Survivors(Survivors(s)) != Survivors(s);
  }

  lemma FirstPass(s: seq<int>, once: seq<int>)
    requires s == [1, 1, 75, 100, 125, 125] && once == [75, 100, 125, 125]
    ensures Survivors(s) == once
  {
    SortedExample(s);
    FirstMedian(s);
    FirstKeep(s, once);
  }

  lemma FirstKeep(s: seq<int>, once: seq<int>)
    requires s == [1, 1, 75, 100, 125, 125] && once == [75, 100, 125, 125]
    ensures KeepNear(s, 100) == once
  {
    assert NearMedian(75, 100) && NearMedian(100, 100) && NearMedian(125, 100);
    KeepAllNear(once, 100);
    assert s[1..][1..] == once;
    DropFar(s[1..], 100, once);
    DropFar(s, 100, once);
  }

  lemma FirstMedian(s: seq<int>)
    requires |s| == 6 && s[3] == 100 && Sorted(s)
    ensures Median(s) == 100
  {
    MedianOfSorted(s);
  }

  lemma SortedExample(s: seq<int>)
    requires s == [1, 1, 75, 100, 125, 125]
    ensures Sorted(s)
  {
  }

  lemma SecondPass(once: seq<int>, twice: seq<int>)
    requires once == [75, 100, 125, 125] && twice == [100, 125, 125]
    ensures Survivors(once) == twice
  {
    SortedOnce(once);
    SecondMedian(once);
    SecondKeep(once, twice);
  }

  lemma SecondKeep(once: seq<int>, twice: seq<int>)
    requires once == [75, 100, 125, 125] && twice == [100, 125, 125]
    ensures KeepNear(once, 125) == twice
  {
    assert NearMedian(100, 125) && NearMedian(125, 125) && !NearMedian(75, 125);
    assert once[1..] == twice;
    KeepAllNear(twice, 125);
    DropFar(once, 125, twice);
  }

  lemma SecondMedian(once: seq<int>)
    requires |once| == 4 && once[2] == 125 && Sorted(once)
    ensures Median(once) == 125
  {
    MedianOfSorted(once);
  }

  lemma SortedOnce(once: seq<int>)
    requires once == [75, 100, 125, 125]
    ensures Sorted(once)
  {
  }

  /** The median of an already sorted list is its middle element. */
  lemma MedianOfSorted(s: seq<int>)
    requires |s| > 0 && Sorted(s)
    ensures Median(s) == s[|s| / 2]
  {
    SortSorted(s);
  }

  /** A leading outlier is dropped. */
  lemma DropFar(s: seq<int>, m: int, kept: seq<int>)
    requires |s| > 0 && !NearMedian(s[0], m) && KeepNear(s[1..], m) == kept
    ensures KeepNear(s, m) == kept
  {
  }

  /** Readings all near `m` are all kept. */
  lemma {:induction false} KeepAllNear(s: seq<int>, m: int)
    requires forall i :: 0 <= i < |s| ==> NearMedian(s[i], m)
    ensures KeepNear(s, m) == s
  {
    if |s| > 0 {
      KeepAllNear(s[1..], m);
      assert s == [s[0]] + s[1..];
    }
  }

  function Mean(s: seq<int>): real
    requires |s| > 0
  {
    Sum(s) as real / |s| as real
  }

  /** A mean of values in [lo, hi] lies in [lo, hi]. */
  lemma MeanBounds(s: seq<int>, lo: int, hi: int)
    requires |s| > 0
    requires AllWithin(s, lo, hi)
    ensures lo as real <= Mean(s) <= hi as real
  {
    SumBounds(s, lo, hi);
    var n := |s|;
    var total := Sum(s);
    IntToRealMonotone(n * lo, total);
    IntToRealMonotone(total, n * hi);
    CastProduct(n, lo);
    CastProduct(n, hi);
    QuotientBounds(total as real, n as real, lo as real, hi as real);
  }

  lemma IntToRealMonotone(a: int, b: int)
    requires a <= b
    ensures a as real <= b as real
  {
  }

  lemma CastProduct(a: int, b: int)
    ensures (a * b) as real == a as real * b as real
  {
  }

  lemma QuotientBounds(total: real, n: real, lo: real, hi: real)
    requires n > 0.0
    requires n * lo <= total <= n * hi
    ensures lo <= total / n <= hi
  {
  }

  /** compute_depth: -1 exactly when the detection has no usable reading;
      otherwise the mean of the outlier-filtered readings, which lies between
      the smallest and the largest usable reading, hence in (0, 4000). */
  function ComputeDepth(b: PixelBox, cam: Camera, distanceMm: seq<int>, g: Grid): (r: real)
    requires GridOk(g) && CoversGrid(distanceMm, g)
    ensures var readings := UsableReadings(FindOverlappingCells(b, cam, g), distanceMm);
      && (r == NoDepth <==> |readings| == 0)
      && (|readings| > 0 ==> Min(readings) as real <= r <= Max(readings) as real)
      && (|readings| > 0 ==> |Survivors(readings)| > 0 && r == Mean(Survivors(readings)))
    ensures r == NoDepth || 0.0 < r < MaxValidDepthMm as real
  {
    var cells := FindOverlappingCells(b, cam, g);
    if |cells| == 0 then NoDepth
    else
      var readings := UsableReadings(cells, distanceMm);
      if |readings| == 0 then NoDepth
      else
        var kept := Survivors(readings);
        if |kept| == 0 then NoDepth
        else
          SurvivorsBetween(readings);
          MeanBounds(kept, Min(readings), Max(readings));
          Mean(kept)
  }

  /** Every survivor lies between the smallest and largest reading. */
  lemma SurvivorsBetween(readings: seq<int>)
    requires |readings| > 0
    ensures AllWithin(Survivors(readings), Min(readings), Max(readings))
  {
    var kept := Survivors(readings);
    forall i | 0 <= i < |kept| ensures Min(readings) <= kept[i] <= Max(readings) {
      assert kept[i] in readings;
    }
  }

  /** A per-detection result of depth_estimation. */
  datatype DetectionDepth = DetectionDepth(box: PixelBox, depthMm: real, valid: bool)

  /** Results for `boxes` against a frame known to be present. */
  function DepthsFor(boxes: seq<PixelBox>, cam: Camera, distanceMm: seq<int>, g: Grid): (r: seq<DetectionDepth>)
    requires GridOk(g) && CoversGrid(distanceMm, g)
    ensures |r| == |boxes|
    ensures forall i :: 0 <= i < |r| ==> r[i].box == boxes[i] && r[i].depthMm == ComputeDepth(boxes[i], cam, distanceMm, g)
    ensures forall i :: 0 <= i < |r| ==> r[i].valid == (r[i].depthMm > 0.0)
  {
    seq(|boxes|, i requires 0 <= i < |boxes| =>
      var d := ComputeDepth(boxes[i], cam, distanceMm, g);
      DetectionDepth(boxes[i], d, d > 0.0))
  }

  /** depth_estimation: with no ToF frame in the queue nothing is estimated
      (None); otherwise one result per detection, in input order, each valid
      exactly when the detection has a usable reading. */
  function EstimateDepths(boxes: seq<PixelBox>, cam: Camera, tofPeek: Option<seq<int>>, g: Grid): (r: Option<seq<DetectionDepth>>)
    requires GridOk(g)
    requires tofPeek.Some? ==> CoversGrid(tofPeek.value, g)
    ensures r.None? <==> tofPeek.None?
    ensures r.Some? ==> |r.value| == |boxes|
    ensures r.Some? ==> forall i :: 0 <= i < |boxes| ==> r.value[i].depthMm == ComputeDepth(boxes[i], cam, tofPeek.value, g)
    ensures r.Some? ==> forall i :: 0 <= i < |boxes| ==>
      && r.value[i].box == boxes[i]
      && (r.value[i].valid <==> |UsableReadings(FindOverlappingCells(boxes[i], cam, g), tofPeek.value)| > 0)
      && (r.value[i].valid ==> 0.0 < r.value[i].depthMm < MaxValidDepthMm as real)
      && (!r.value[i].valid ==> r.value[i].depthMm == NoDepth)
  {
    match tofPeek
    case None => None
    case Some(distanceMm) => Some(DepthsFor(boxes, cam, distanceMm, g))
  }
}
