/** The earlier histogram depth estimator and its task loop
    (src/m7/depth_estimation_task.cc): keep the valid ToF cells a person's box
    overlaps, then average the closest third of the distinct distances,
    weighting each distance by how many cells reported it. */
module HistogramDepth {
  import opened Wrappers
  import opened SeqMath
  import DepthEstimation

  /** VL53L8CX target status meaning "valid measurement". */
  const ValidTargetStatus: int := 5

  /** Per-cell arrays of one ToF result frame. */
  datatype TofResults = TofResults(nbTargetDetected: seq<int>, targetStatus: seq<int>, distanceMm: seq<int>)

  /** The frame has an entry for each of the first `cellCount` cells. */
  predicate Covers(tof: TofResults, cellCount: nat) {
    cellCount <= |tof.nbTargetDetected| && cellCount <= |tof.targetStatus| && cellCount <= |tof.distanceMm|
  }

  datatype DepthCell = DepthCell(distanceMm: DepthEstimation.U16, status: int, valid: bool)

  /** A cell has a valid measurement: at least one target, status 5. */
  predicate Measured(tof: TofResults, i: nat)
    requires i < |tof.nbTargetDetected| && i < |tof.targetStatus|
  {
    tof.nbTargetDetected[i] != 0 && tof.targetStatus[i] == ValidTargetStatus
  }

  /** Indices from `k` up of measured cells that overlap the box (`overlaps(i)`
      says some pixel of cell i lies in the box), in ascending order. */
  function SelectedFrom(tof: TofResults, overlaps: nat -> bool, cellCount: nat, k: nat): (r: seq<nat>)
    requires Covers(tof, cellCount) && k <= cellCount
    ensures StrictlyIncreasing(r)
    ensures forall j :: 0 <= j < |r| ==> k <= r[j] < cellCount
    ensures forall i :: i in r <==> k <= i < cellCount && Measured(tof, i) && overlaps(i)
    decreases cellCount - k
  {
    if k == cellCount then []
    else
      var rest := SelectedFrom(tof, overlaps, cellCount, k + 1);
      if Measured(tof, k) && overlaps(k) then [k] + rest else rest
  }

  function CellAt(tof: TofResults, i: nat): DepthCell
    requires i < |tof.targetStatus| && i < |tof.distanceMm|
  {
    DepthCell(DepthEstimation.ToU16(tof.distanceMm[i]), tof.targetStatus[i], true)
  }

  function CellsAt(tof: TofResults, idx: seq<nat>): (r: seq<DepthCell>)
    requires forall j :: 0 <= j < |idx| ==> idx[j] < |tof.targetStatus| && idx[j] < |tof.distanceMm|
    ensures |r| == |idx|
    ensures forall j :: 0 <= j < |idx| ==> r[j] == CellAt(tof, idx[j])
  {
    if |idx| == 0 then [] else [CellAt(tof, idx[0])] + CellsAt(tof, idx[1..])
  }

  /** get_overlapping_depth_cells: the cells with a valid measurement
      (targets present, status 5) that the box overlaps, in ascending cell
      order, each carrying that cell's distance and status and marked valid. */
  function GetOverlappingDepthCells(tof: TofResults, overlaps: nat -> bool, cellCount: nat): (r: seq<DepthCell>)
    requires Covers(tof, cellCount)
    ensures var idx := SelectedFrom(tof, overlaps, cellCount, 0);
      && |r| == |idx|
      && forall j :: 0 <= j < |idx| ==>
           && r[j] == CellAt(tof, idx[j])
           && r[j].status == ValidTargetStatus && r[j].valid
  {
    var idx := SelectedFrom(tof, overlaps, cellCount, 0);
    assert forall j :: 0 <= j < |idx| ==> idx[j] in idx && Measured(tof, idx[j]);
    CellsAt(tof, idx)
  }

  function Distances(cells: seq<DepthCell>): (r: seq<int>)
    ensures |r| == |cells|
    ensures forall j :: 0 <= j < |cells| ==> r[j] == cells[j].distanceMm
  {
    if |cells| == 0 then [] else [cells[0].distanceMm] + Distances(cells[1..])
  }

  /** The distinct distances in ascending order (the sorted histogram keys). */
  function DistinctSorted(ds: seq<int>): (r: seq<int>)
    ensures StrictlyIncreasing(r)
    ensures forall x :: x in r <==> x in ds
    ensures |ds| > 0 ==> |r| > 0
  {
    var sorted := Sort(ds);
    assert forall x :: x in sorted <==> x in multiset(sorted);
    Dedup(sorted)
  }

  /** How many distinct distances are used: a third of them, at least one. */
  function NumSamples(distinct: nat): (n: nat)
    ensures n >= 1
    ensures distinct >= 1 ==> n <= distinct
    ensures distinct < 3 ==> n == 1
    ensures distinct >= 3 ==> 3 * n <= distinct < 3 * n + 3
  {
    if distinct / 3 > 1 then distinct / 3 else 1
  }

  /** The largest distance used: the NumSamples-th smallest distinct distance. */
  function Cutoff(ds: seq<int>): int
    requires |ds| > 0
  {
    var distinct := DistinctSorted(ds);
    distinct[NumSamples(|distinct|) - 1]
  }

  /** Reference definition of the estimate: the floor of the plain mean of
      every reading not above the cut-off (no histogram). 0 for no readings. */
  function ClosestThirdEstimate(ds: seq<int>): int
    requires forall j :: 0 <= j < |ds| ==> ds[j] >= 0
  {
    if |ds| == 0 then 0
    else
      CutoffSelectsSome(ds);
      SumAtMost(ds, Cutoff(ds)) / CountAtMost(ds, Cutoff(ds))
  }

  /** The cut-off is itself a reading, so it selects at least one. */
  lemma CutoffSelectsSome(ds: seq<int>)
    requires |ds| > 0
    ensures CountAtMost(ds, Cutoff(ds)) > 0
    ensures Cutoff(ds) in ds
  {
    var c := Cutoff(ds);
    CutoffIsReading(ds);
    var i :| 0 <= i < |ds| && ds[i] == c;
    CountAtMostPositive(ds, c, i);
  }

  lemma CutoffIsReading(ds: seq<int>)
    requires |ds| > 0
    ensures Cutoff(ds) in ds
  {
    var distinct := DistinctSorted(ds);
    var n := NumSamples(|distinct|);
    assert 1 <= n <= |distinct|;
    assert distinct[n - 1] in distinct;
  }

  lemma {:induction false} CountAtMostPositive(ds: seq<int>, c: int, i: nat)
    requires i < |ds| && ds[i] <= c
    ensures CountAtMost(ds, c) > 0
  {
    if i > 0 {
      assert ds[1..][i - 1] == ds[i];
      CountAtMostPositive(ds[1..], c, i - 1);
    }
  }

  /** calculate_depth_estimate as the source computes it: build the
      histogram, sort its keys, and accumulate distance*multiplicity and
      multiplicity over the NumSamples smallest keys; the result is the
      reference estimate (floor of the mean of the readings not above the
      cut-off), lies between the smallest reading and the cut-off, and is 0
      exactly for an empty list. */
  method CalculateDepthEstimate(cells: seq<DepthCell>) returns (r: nat)
    ensures r == ClosestThirdEstimate(Distances(cells))
    ensures |cells| == 0 ==> r == 0
    ensures |cells| > 0 ==> Min(Distances(cells)) <= r <= Cutoff(Distances(cells))
  {
    if |cells| == 0 {
      return 0;
    }
    var ds := Distances(cells);
    var histogram := multiset(ds);
    var distinct := DistinctSorted(ds);
    var numSamples := NumSamples(|distinct|);
    var sum := 0;
    var count := 0;
    var i := 0;
    AtMostBelowAll(ds, -1, 0);
    while i < numSamples && i < |distinct|
      invariant 0 <= i <= numSamples && i <= |distinct|
      invariant sum == SumAtMost(ds, Below(distinct, i)) && count == CountAtMost(ds, Below(distinct, i))
    {
      HistogramStep(ds, distinct, i);
      sum := sum + distinct[i] * histogram[distinct[i]];
      count := count + histogram[distinct[i]];
      i := i + 1;
    }
    FinishEstimate(ds, distinct, i, sum, count);
    r := sum / count;
  }

  /** After the NumSamples smallest buckets the accumulated totals give the
      reference estimate. */
  lemma FinishEstimate(ds: seq<int>, distinct: seq<int>, i: nat, sum: int, count: int)
    requires |ds| > 0
    requires forall j :: 0 <= j < |ds| ==> ds[j] >= 0
    requires distinct == DistinctSorted(ds) && i <= |distinct|
    requires i == NumSamples(|distinct|)
    requires sum == SumAtMost(ds, Below(distinct, i)) && count == CountAtMost(ds, Below(distinct, i))
    ensures count > 0 && sum / count == ClosestThirdEstimate(ds)
    ensures Min(ds) <= sum / count <= Cutoff(ds) && sum / count >= 0
  {
    BelowIsCutoff(ds, distinct, i);
    CutoffSelectsSome(ds);
    EstimateBounds(ds);
    assert Min(ds) >= 0;
  }

  /** Taking NumSamples distinct values stops exactly at the cut-off. */
  lemma BelowIsCutoff(ds: seq<int>, distinct: seq<int>, i: nat)
    requires |ds| > 0
    requires distinct == DistinctSorted(ds) && i <= |distinct|
    requires i == NumSamples(|distinct|)
    ensures Below(distinct, i) == Cutoff(ds)
  {
  }

  /** The cut-off after taking the first `i` distinct values (-1 before any). */
  function Below(distinct: seq<int>, i: nat): int
    requires i <= |distinct|
  {
    if i == 0 then -1 else distinct[i - 1]
  }

  /** Adding the histogram bucket of the next distinct value moves the cut-off to it. */
  lemma HistogramStep(ds: seq<int>, distinct: seq<int>, i: nat)
    requires forall j :: 0 <= j < |ds| ==> ds[j] >= 0
    requires distinct == DistinctSorted(ds) && i < |distinct|
    ensures SumAtMost(ds, distinct[i]) == SumAtMost(ds, Below(distinct, i)) + distinct[i] * multiset(ds)[distinct[i]]
    ensures CountAtMost(ds, distinct[i]) == CountAtMost(ds, Below(distinct, i)) + multiset(ds)[distinct[i]]
  {
    NoReadingBetween(ds, distinct, i);
    AtMostStep(ds, Below(distinct, i), distinct[i]);
    CountIsMultiplicity(ds, distinct[i]);
  }

  /** No reading lies strictly between consecutive distinct values, nor below the first. */
  lemma NoReadingBetween(ds: seq<int>, distinct: seq<int>, i: nat)
    requires forall j :: 0 <= j < |ds| ==> ds[j] >= 0
    requires distinct == DistinctSorted(ds) && i < |distinct|
    ensures Below(distinct, i) < distinct[i]
    ensures forall j :: 0 <= j < |ds| ==> !(Below(distinct, i) < ds[j] < distinct[i])
  {
    NoValueBetween(ds, distinct, i);
  }

  /** The same gap, for any strictly increasing list holding exactly the readings' values. */
  lemma NoValueBetween(ds: seq<int>, distinct: seq<int>, i: nat)
    requires forall j :: 0 <= j < |ds| ==> ds[j] >= 0
    requires StrictlyIncreasing(distinct) && (forall x :: x in distinct <==> x in ds)
    requires i < |distinct|
    ensures Below(distinct, i) < distinct[i]
    ensures forall j :: 0 <= j < |ds| ==> !(Below(distinct, i) < ds[j] < distinct[i])
  {
    var prev := Below(distinct, i);
    assert distinct[i] in distinct;
    assert i > 0 ==> distinct[i - 1] < distinct[i];
    forall j | 0 <= j < |ds| ensures !(prev < ds[j] < distinct[i]) {
      assert ds[j] in ds;
      assert ds[j] in distinct;
      var k :| 0 <= k < |distinct| && distinct[k] == ds[j];
      if k < i {
        assert k == i - 1 || distinct[k] < distinct[i - 1];
      } else {
        assert k == i || distinct[i] < distinct[k];
      }
    }
  }

  /** The estimate lies between the smallest reading and the cut-off. */
  lemma EstimateBounds(ds: seq<int>)
    requires |ds| > 0
    requires forall j :: 0 <= j < |ds| ==> ds[j] >= 0
    ensures Min(ds) <= ClosestThirdEstimate(ds) <= Cutoff(ds)
  {
    var c := Cutoff(ds);
    CutoffSelectsSome(ds);
    var n := CountAtMost(ds, c);
    var s := SumAtMost(ds, c);
    AtMostBounds(ds, c, Min(ds));
    DivBounds(s, n, Min(ds), c);
  }

  lemma DivBounds(s: int, n: int, lo: int, hi: int)
    requires n > 0 && n * lo <= s <= n * hi
    ensures lo <= s / n <= hi
  {
    var q := s / n;
    assert q * n <= s < (q + 1) * n;
    MulLessReverse(lo, q + 1, n);
    MulLessReverse(q, hi + 1, n);
  }

  lemma MulLessReverse(a: int, b: int, n: int)
    requires n > 0 && a * n < b * n
    ensures a < b
  {
  }

  /** When every cell reports the same distance, that distance is the estimate. */
  lemma UniformDistance(ds: seq<int>, d: nat)
    requires |ds| > 0
    requires forall j :: 0 <= j < |ds| ==> ds[j] == d
    ensures ClosestThirdEstimate(ds) == d
  {
    CutoffSelectsSome(ds);
    var c := Cutoff(ds);
    assert c == d;
    AtMostAll(ds, d);
    SumBounds(ds, d, d);
    var n := |ds|;
    assert SumAtMost(ds, c) == n * d;
    assert CountAtMost(ds, c) == n;
    ExactQuotient(n, d);
  }

  lemma ExactQuotient(n: int, d: int)
    requires n > 0
    ensures (n * d) / n == d
  {
    DivBounds(n * d, n, d, d);
  }

  /** A detected person: an id and a box in whatever form the cell map takes. */
  datatype Person<B> = Person(id: int, bbox: B)

  /** What the depth task reports for one person. */
  datatype PersonDepth = PersonDepth(id: int, depthMm: nat)

  /** One published depth record: the person depths with the frames they came from. */
  datatype DepthTaskData<B> = DepthTaskData(personDepths: seq<PersonDepth>, people: seq<Person<B>>, tof: TofResults, timestamp: int)

  /** Estimate for one person; `cellOverlap(b, i)` says some pixel of ToF cell i lies in box b. */
  function PersonEstimate<B>(p: Person<B>, tof: TofResults, cellOverlap: (B, nat) -> bool, cellCount: nat): nat
    requires Covers(tof, cellCount)
  {
    var cells := GetOverlappingDepthCells(tof, (i: nat) => cellOverlap(p.bbox, i), cellCount);
    var ds := Distances(cells);
    EstimateBounds0(ds);
    ClosestThirdEstimate(ds)
  }

  lemma EstimateBounds0(ds: seq<int>)
    requires forall j :: 0 <= j < |ds| ==> ds[j] >= 0
    ensures ClosestThirdEstimate(ds) >= 0
  {
    if |ds| > 0 {
      EstimateBounds(ds);
    }
  }

  /** `idx` lists, in increasing order, the positions in `people` that `r`
      reports: entry k of `r` is person idx[k] with that person's estimate
      `est`, which is positive, and every person with a positive estimate is
      listed. */
  predicate Picks<B>(idx: seq<int>, people: seq<Person<B>>, est: Person<B> -> nat, r: seq<PersonDepth>) {
    && |idx| == |r|
    && StrictlyIncreasing(idx)
    && (forall k :: 0 <= k < |idx| ==> 0 <= idx[k] < |people| && r[k] == PersonDepth(people[idx[k]].id, est(people[idx[k]])))
    && (forall k :: 0 <= k < |r| ==> r[k].depthMm > 0)
    && (forall i {:trigger i in idx} :: 0 <= i < |people| && est(people[i]) > 0 ==> i in idx)
  }

  /** PersonEstimate against one ToF frame, as a function of the person. */
  function EstimateOf<B>(tof: TofResults, cellOverlap: (B, nat) -> bool, cellCount: nat): Person<B> -> nat
    requires Covers(tof, cellCount)
  {
    p => PersonEstimate(p, tof, cellOverlap, cellCount)
  }

  /** The people whose estimate is positive, each with that estimate, one
      entry per such person, in input order. */
  function PersonDepths<B(!new)>(people: seq<Person<B>>, tof: TofResults, cellOverlap: (B, nat) -> bool, cellCount: nat): (r: seq<PersonDepth>)
    requires Covers(tof, cellCount)
    ensures |r| <= |people|
    ensures forall e :: e in r ==>
      e.depthMm > 0 && exists p :: p in people && e == PersonDepth(p.id, PersonEstimate(p, tof, cellOverlap, cellCount))
    ensures forall p :: p in people && PersonEstimate(p, tof, cellOverlap, cellCount) > 0 ==>
      PersonDepth(p.id, PersonEstimate(p, tof, cellOverlap, cellCount)) in r
    ensures exists idx :: Picks(idx, people, EstimateOf(tof, cellOverlap, cellCount), r)
  {
    var est := EstimateOf(tof, cellOverlap, cellCount);
    if |people| == 0 then
      assert Picks([], people, est, []);
      []
    else
      var rest := PersonDepths(people[1..], tof, cellOverlap, cellCount);
      var d := PersonEstimate(people[0], tof, cellOverlap, cellCount);
      assert d == est(people[0]);
      var r := if d > 0 then [PersonDepth(people[0].id, d)] + rest else rest;
      PicksStep(people, est, rest, r);
      PicksMembership(people, est, r);
      r
  }

  /** An in-order listing reports only people with positive estimates, and all of them. */
  lemma PicksMembership<B>(people: seq<Person<B>>, est: Person<B> -> nat, r: seq<PersonDepth>)
    requires exists idx :: Picks(idx, people, est, r)
    ensures |r| <= |people|
    ensures forall e :: e in r ==> e.depthMm > 0 && exists p :: p in people && e == PersonDepth(p.id, est(p))
    ensures forall p :: p in people && est(p) > 0 ==> PersonDepth(p.id, est(p)) in r
  {
    var idx :| Picks(idx, people, est, r);
    IncreasingBound(idx, |people|);
    forall e | e in r ensures exists p :: p in people && e == PersonDepth(p.id, est(p)) {
      var k :| 0 <= k < |r| && r[k] == e;
      assert people[idx[k]] in people;
    }
    forall p | p in people && est(p) > 0 ensures PersonDepth(p.id, est(p)) in r {
      var i :| 0 <= i < |people| && people[i] == p;
      assert i in idx;
      var k :| 0 <= k < |idx| && idx[k] == i;
      assert r[k] == PersonDepth(p.id, est(p));
    }
  }

  /** A strictly increasing list of positions below `n` has at most `n` entries. */
  lemma {:induction false} IncreasingBound(idx: seq<int>, n: nat)
    requires StrictlyIncreasing(idx)
    requires forall k :: 0 <= k < |idx| ==> 0 <= idx[k] < n
    ensures |idx| <= n
  {
    if |idx| > 0 {
      assert 0 <= idx[|idx| - 1] < n;
      var init := idx[..|idx| - 1];
      assert forall k :: 0 <= k < |init| ==> init[k] == idx[k];
      forall k | 0 <= k < |init| ensures 0 <= init[k] < n - 1 {
        assert idx[k] < idx[|idx| - 1];
      }
      IncreasingBound(init, n - 1);
    }
  }

  /** Positions reported for the tail of `people`, moved one place on, with
      position 0 in front when the first person has a positive estimate. */
  lemma PicksStep<B>(people: seq<Person<B>>, est: Person<B> -> nat, rest: seq<PersonDepth>, r: seq<PersonDepth>)
    requires |people| > 0
    requires exists idx :: Picks(idx, people[1..], est, rest)
    requires r == if est(people[0]) > 0 then [PersonDepth(people[0].id, est(people[0]))] + rest else rest
    ensures exists idx :: Picks(idx, people, est, r)
  {
    var idx' :| Picks(idx', people[1..], est, rest);
    if est(people[0]) > 0 {
      StepKeep(people, est, idx', rest, r);
    } else {
      StepSkip(people, est, idx', rest, r);
    }
  }

  /** The first person reported: position 0, then the tail's positions moved on. */
  lemma StepKeep<B>(people: seq<Person<B>>, est: Person<B> -> nat, idx': seq<int>, rest: seq<PersonDepth>, r: seq<PersonDepth>)
    requires |people| > 0 && est(people[0]) > 0
    requires Picks(idx', people[1..], est, rest)
    requires r == [PersonDepth(people[0].id, est(people[0]))] + rest
    ensures Picks([0] + MoveOn(idx'), people, est, r)
  {
    var moved := MoveOn(idx');
    MoveOnIncreasing(idx');
    MovedReports(people, est, idx', rest);
    MovedComplete(people, est, idx');
    PrependZero(moved);
    KeepReports(people, est, moved, rest, r);
    KeepComplete(people, est, moved);
    AssemblePicks([0] + moved, people, est, r);
  }

  /** The first person left out: the tail's positions moved on. */
  lemma StepSkip<B>(people: seq<Person<B>>, est: Person<B> -> nat, idx': seq<int>, rest: seq<PersonDepth>, r: seq<PersonDepth>)
    requires |people| > 0 && est(people[0]) == 0
    requires Picks(idx', people[1..], est, rest)
    requires r == rest
    ensures Picks(MoveOn(idx'), people, est, r)
  {
    MoveOnIncreasing(idx');
    MovedReports(people, est, idx', rest);
    MovedComplete(people, est, idx');
    AssemblePicks(MoveOn(idx'), people, est, r);
  }

  /** The four parts of Picks, put together. */
  lemma AssemblePicks<B>(idx: seq<int>, people: seq<Person<B>>, est: Person<B> -> nat, r: seq<PersonDepth>)
    requires |idx| == |r| && StrictlyIncreasing(idx)
    requires forall k :: 0 <= k < |idx| ==> 0 <= idx[k] < |people| && r[k] == PersonDepth(people[idx[k]].id, est(people[idx[k]]))
    requires forall k :: 0 <= k < |r| ==> r[k].depthMm > 0
    requires forall i {:trigger i in idx} :: 0 <= i < |people| && est(people[i]) > 0 ==> i in idx
    ensures Picks(idx, people, est, r)
  {
  }

  /** Every position moved one place on. */
  function MoveOn(idx: seq<int>): (r: seq<int>)
    ensures |r| == |idx|
    ensures forall k :: 0 <= k < |idx| ==> r[k] == idx[k] + 1
  {
    seq(|idx|, k requires 0 <= k < |idx| => idx[k] + 1)
  }

  lemma MoveOnIncreasing(idx: seq<int>)
    requires StrictlyIncreasing(idx)
    ensures StrictlyIncreasing(MoveOn(idx))
  {
  }

  /** Position 0 in front of positive positions keeps the list increasing. */
  lemma PrependZero(moved: seq<int>)
    requires StrictlyIncreasing(moved)
    requires forall k :: 0 <= k < |moved| ==> 1 <= moved[k]
    ensures StrictlyIncreasing([0] + moved)
  {
    var idx := [0] + moved;
    forall k, l | 0 <= k < l < |idx| ensures idx[k] < idx[l] {
      assert idx[l] == moved[l - 1];
      if k > 0 {
        assert idx[k] == moved[k - 1];
      }
    }
  }

  /** The tail's positions, moved on, name the same people in the whole list. */
  lemma MovedReports<B>(people: seq<Person<B>>, est: Person<B> -> nat, idx': seq<int>, rest: seq<PersonDepth>)
    requires |people| > 0 && |idx'| == |rest|
    requires forall k :: 0 <= k < |idx'| ==>
      0 <= idx'[k] < |people[1..]| && rest[k] == PersonDepth(people[1..][idx'[k]].id, est(people[1..][idx'[k]]))
    ensures forall k :: 0 <= k < |idx'| ==>
      1 <= MoveOn(idx')[k] < |people| && rest[k] == PersonDepth(people[MoveOn(idx')[k]].id, est(people[MoveOn(idx')[k]]))
  {
    var moved := MoveOn(idx');
    forall k | 0 <= k < |idx'| ensures people[moved[k]] == people[1..][idx'[k]] {
    }
  }

  /** Every positive person after the first is among the tail's positions moved on. */
  lemma MovedComplete<B>(people: seq<Person<B>>, est: Person<B> -> nat, idx': seq<int>)
    requires |people| > 0
    requires forall i {:trigger i in idx'} :: 0 <= i < |people[1..]| && est(people[1..][i]) > 0 ==> i in idx'
    ensures forall i {:trigger i in MoveOn(idx')} :: 1 <= i < |people| && est(people[i]) > 0 ==> i in MoveOn(idx')
  {
    var moved := MoveOn(idx');
    forall i | 1 <= i < |people| && est(people[i]) > 0 ensures i in moved {
      assert people[1..][i - 1] == people[i];
      assert i - 1 in idx';
      var k :| 0 <= k < |idx'| && idx'[k] == i - 1;
      assert moved[k] == i;
    }
  }

  /** With the first person in front, entry k names person ([0] + moved)[k]. */
  lemma KeepReports<B>(people: seq<Person<B>>, est: Person<B> -> nat, moved: seq<int>, rest: seq<PersonDepth>, r: seq<PersonDepth>)
    requires |people| > 0 && est(people[0]) > 0 && |moved| == |rest|
    requires forall k :: 0 <= k < |moved| ==>
      1 <= moved[k] < |people| && rest[k] == PersonDepth(people[moved[k]].id, est(people[moved[k]]))
    requires forall k :: 0 <= k < |rest| ==> rest[k].depthMm > 0
    requires r == [PersonDepth(people[0].id, est(people[0]))] + rest
    ensures forall k :: 0 <= k < |r| ==>
      0 <= ([0] + moved)[k] < |people| && r[k] == PersonDepth(people[([0] + moved)[k]].id, est(people[([0] + moved)[k]]))
    ensures forall k :: 0 <= k < |r| ==> r[k].depthMm > 0
  {
    var idx := [0] + moved;
    forall k | 0 <= k < |r|
      ensures 0 <= idx[k] < |people| && r[k] == PersonDepth(people[idx[k]].id, est(people[idx[k]])) && r[k].depthMm > 0 {
      if k > 0 {
        assert idx[k] == moved[k - 1] && r[k] == rest[k - 1];
      }
    }
  }

  /** With position 0 in front, every positive person is listed. */
  lemma KeepComplete<B>(people: seq<Person<B>>, est: Person<B> -> nat, moved: seq<int>)
    requires |people| > 0
    requires forall i {:trigger i in moved} :: 1 <= i < |people| && est(people[i]) > 0 ==> i in moved
    ensures forall i {:trigger i in [0] + moved} :: 0 <= i < |people| && est(people[i]) > 0 ==> i in [0] + moved
  {
  }

  /** One pass of depth_estimation_task: data is fused and published only
      when both an inference result and a ToF frame are in their queues; a
      person is reported only with a positive estimate, and every person with
      a positive estimate is reported. */
  function DepthTaskCycle<B(!new)>(inference: Option<seq<Person<B>>>, tofPeek: Option<TofResults>, now: int,
                             cellOverlap: (B, nat) -> bool, cellCount: nat): (r: Option<DepthTaskData<B>>)
    requires tofPeek.Some? ==> Covers(tofPeek.value, cellCount)
    ensures r.Some? <==> inference.Some? && tofPeek.Some?
    ensures r.Some? ==> r.value.people == inference.value && r.value.tof == tofPeek.value
    ensures r.Some? ==> forall e :: e in r.value.personDepths ==>
      e.depthMm > 0 && exists p :: p in inference.value && e == PersonDepth(p.id, PersonEstimate(p, tofPeek.value, cellOverlap, cellCount))
    ensures r.Some? ==> forall p :: p in inference.value && PersonEstimate(p, tofPeek.value, cellOverlap, cellCount) > 0 ==>
      PersonDepth(p.id, PersonEstimate(p, tofPeek.value, cellOverlap, cellCount)) in r.value.personDepths
    ensures r.Some? ==> exists idx :: Picks(idx, inference.value, EstimateOf(tofPeek.value, cellOverlap, cellCount), r.value.personDepths)
  {
    if inference.Some? && tofPeek.Some? then
      Some(DepthTaskData(PersonDepths(inference.value, tofPeek.value, cellOverlap, cellCount),
                         inference.value, tofPeek.value, now))
    else None
  }
}
