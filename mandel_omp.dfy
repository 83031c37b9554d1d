/** mandel_omp.c: the escape-time loop for one point and the loops that
    fill the grid. The double-precision arithmetic is not modelled: it is
    given as opaque operations on a type D of plane coordinates, so that the
    integer structure (the counter, its bound, the in-set mapping, the
    layout of the grid) is what the model pins down. */
module MandelOmp {
  import opened MandelH
  import GridArith

  /** The floating-point operations the code performs.
      - sample(lo, hi, k, n) is lo + (hi - lo) * ((double)k / n), used for
        both plane coordinates of a cell;
      - step(r, i, r0, i0) is one update of the orbit, z*z + c, giving the
        new real and imaginary parts;
      - inRadius(r, i) is the bailout test r*r + i*i <= 2*2. */
  datatype FloatOps<!D> = FloatOps(
    sample: (D, D, int, int) -> D,
    step: (D, D, D, D) -> (D, D),
    inRadius: (D, D) -> bool)

  /** The n-th point of the orbit of c = (r0, i0), starting at c itself. */
  function Orbit<D>(ops: FloatOps<D>, r0: D, i0: D, n: nat): (D, D)
  {
    if n == 0 then (r0, i0)
    else
      var z := Orbit(ops, r0, i0, n - 1);
      ops.step(z.0, z.1, r0, i0)
  }

  /** The n-th point of the orbit passes the bailout test. */
  predicate InRadius<D>(ops: FloatOps<D>, r0: D, i0: D, n: nat)
  {
    var z := Orbit(ops, r0, i0, n);
    ops.inRadius(z.0, z.1)
  }

  /** The value of the counter when the loop exits, started from
      `iteration`: the loop goes on while the current orbit point (the one
      reached after iteration - 1 updates) passes the test and the counter is
      below the bound. */
  function ExitCount<D>(ops: FloatOps<D>, r0: D, i0: D, iteration: int, maxIterations: int): (n: int)
    requires 1 <= iteration
    ensures iteration <= n
    ensures iteration <= maxIterations ==> n <= maxIterations
    ensures n < maxIterations ==> !InRadius(ops, r0, i0, n - 1)
    decreases maxIterations - iteration
  {
    if InRadius(ops, r0, i0, iteration - 1) && iteration < maxIterations
    then ExitCount(ops, r0, i0, iteration + 1, maxIterations)
    else iteration
  }

  /** The value MandelBrotIterations stores: the exit counter, except that
      reaching the bound is mapped to 0, meaning "in the set". */
  function EscapeTime<D>(ops: FloatOps<D>, r0: D, i0: D, maxIterations: int): (v: int)
    ensures 1 <= maxIterations ==> 0 <= v < maxIterations
    ensures 0 < v < maxIterations ==> !InRadius(ops, r0, i0, v - 1)
  {
    var n := ExitCount(ops, r0, i0, 1, maxIterations);
    if n == maxIterations then 0 else n
  }

  /** What the exit counter is: from any start, it is the first counter at
      or after the start at which the test fails or the bound is reached, and
      it never passes the bound. */
  lemma {:induction false} ExitCountIsFirstExit<D>(ops: FloatOps<D>, r0: D, i0: D, iteration: int, maxIterations: int)
    requires 1 <= iteration
    ensures var n := ExitCount(ops, r0, i0, iteration, maxIterations);
      && iteration <= n
      && (iteration <= maxIterations ==> n <= maxIterations)
      && (forall k :: iteration - 1 <= k < n - 1 ==> InRadius(ops, r0, i0, k))
      && (n < maxIterations ==> !InRadius(ops, r0, i0, n - 1))
      && (n > iteration ==> n <= maxIterations)
    decreases maxIterations - iteration
  {
    if InRadius(ops, r0, i0, iteration - 1) && iteration < maxIterations {
      ExitCountIsFirstExit(ops, r0, i0, iteration + 1, maxIterations);
    }
  }

  /** For a bound of at least 1 every stored value lies in [0, maxIterations). */
  lemma EscapeTimeRange<D>(ops: FloatOps<D>, r0: D, i0: D, maxIterations: int)
    requires 1 <= maxIterations
    ensures 0 <= EscapeTime(ops, r0, i0, maxIterations) < maxIterations
  {
    ExitCountIsFirstExit(ops, r0, i0, 1, maxIterations);
  }

  /** The stored value is 0 exactly when the first maxIterations - 1 orbit
      points (after 0 .. maxIterations - 2 updates) all pass the test. */
  lemma EscapeTimeZeroIffBounded<D>(ops: FloatOps<D>, r0: D, i0: D, maxIterations: int)
    requires 1 <= maxIterations
    ensures EscapeTime(ops, r0, i0, maxIterations) == 0 <==>
      forall k :: 0 <= k < maxIterations - 1 ==> InRadius(ops, r0, i0, k)
  {
    ExitCountIsFirstExit(ops, r0, i0, 1, maxIterations);
    var n := ExitCount(ops, r0, i0, 1, maxIterations);
    if n != maxIterations {
      assert !InRadius(ops, r0, i0, n - 1);
    }
  }

  /** A nonzero stored value n is the counter at which the test first
      failed: the orbit point after n - 1 updates fails it and all earlier
      ones pass. */
  lemma EscapeTimeIsFirstEscape<D>(ops: FloatOps<D>, r0: D, i0: D, maxIterations: int)
    requires 1 <= maxIterations
    requires EscapeTime(ops, r0, i0, maxIterations) != 0
    ensures var n := EscapeTime(ops, r0, i0, maxIterations);
      && 1 <= n < maxIterations
      && !InRadius(ops, r0, i0, n - 1)
      && forall k :: 0 <= k < n - 1 ==> InRadius(ops, r0, i0, k)
  {
    ExitCountIsFirstExit(ops, r0, i0, 1, maxIterations);
  }

  /** A start point that already fails the test is stored as 1 when the
      bound exceeds 1. */
  lemma EscapeAtStart<D>(ops: FloatOps<D>, r0: D, i0: D, maxIterations: int)
    requires 1 < maxIterations && !ops.inRadius(r0, i0)
    ensures EscapeTime(ops, r0, i0, maxIterations) == 1
  {
  }

  /** With a bound of 1 the loop never runs and every point is "in the set";
      with a bound below 1 the counter stays 1, matching no bound. */
  lemma EscapeTimeSmallBound<D>(ops: FloatOps<D>, r0: D, i0: D, maxIterations: int)
    requires maxIterations <= 1
    ensures EscapeTime(ops, r0, i0, maxIterations) == if maxIterations == 1 then 0 else 1
  {
  }

  /** MandelBrotIterations: runs the escape-time loop for the point stored at
      index i of the two coordinate arrays and writes the result into
      outdata[i], and nowhere else. `passes` counts the executions of the
      loop body: one per counter increment, at most maxIterations - 1. */
  method MandelBrotIterations<D>(ops: FloatOps<D>, rval0Array: array<D>, ival0Array: array<D>,
                                 outdata: array<PixelVal>, maxIterations: int, i: int)
    returns (ghost passes: nat)
    requires 0 <= i < rval0Array.Length && i < ival0Array.Length && i < outdata.Length
    requires maxIterations <= Int32Max
    modifies outdata
    ensures outdata[i] as int == EscapeTime(ops, old(rval0Array[i]), old(ival0Array[i]), maxIterations)
    ensures forall j :: 0 <= j < outdata.Length && j != i ==> outdata[j] == old(outdata[j])
    ensures passes == ExitCount(ops, old(rval0Array[i]), old(ival0Array[i]), 1, maxIterations) - 1
    ensures 1 <= maxIterations ==> passes <= maxIterations - 1
  {
    var rval0 := rval0Array[i];
    var ival0 := ival0Array[i];
    var rval := rval0;
    var ival := ival0;
    var iteration := 1;
    passes := 0;
    while ops.inRadius(rval, ival) && iteration < maxIterations
      invariant 1 <= iteration && (1 <= maxIterations ==> iteration <= maxIterations)
      invariant (rval, ival) == Orbit(ops, rval0, ival0, iteration - 1)
      invariant ExitCount(ops, rval0, ival0, iteration, maxIterations) == ExitCount(ops, rval0, ival0, 1, maxIterations)
      invariant passes == iteration - 1
      decreases maxIterations - iteration
    {
      var z := ops.step(rval, ival, rval0, ival0);
      rval, ival := z.0, z.1;
      iteration := iteration + 1;
      passes := passes + 1;
    }
    if iteration == maxIterations {
      // the bound was reached: store 0 ("in the set")
      iteration := 0;
    }
    outdata[i] := iteration as PixelVal;
  }

  /** The index CalcMandel writes cell (x, y) at; inside the grid it lies in
      [0, width * height). */
  function GridIndex(x: int, y: int, width: int, height: int): (index: int)
    requires 0 <= x < width && 0 <= y < height
    ensures 0 <= index < width * height
  {
    GridArith.LinearInRange(y, x, width, height);
    y * width + x
  }

  /** Distinct cells have distinct indexes. */
  lemma GridIndexInjective(x1: int, y1: int, x2: int, y2: int, width: int, height: int)
    requires 0 <= x1 < width && 0 <= y1 < height && 0 <= x2 < width && 0 <= y2 < height
    requires GridIndex(x1, y1, width, height) == GridIndex(x2, y2, width, height)
    ensures x1 == x2 && y1 == y2
  {
    GridArith.LinearInjective(y1, x1, y2, x2, width);
  }

  /** Every index of the grid is the index of a cell. */
  lemma GridIndexOnto(j: int, width: int, height: int)
    requires 0 <= height && 0 <= j < width * height
    ensures 0 < width
    ensures 0 <= j % width < width && 0 <= j / width < height
    ensures GridIndex(j % width, j / width, width, height) == j
  {
    assert width * height == height * width;
    GridArith.LinearCovers(j, width, height);
  }

  /** The value CalcMandel computes for cell (x, y). */
  function CellValue<D>(ops: FloatOps<D>, width: int, height: int,
                        rmin: D, rmax: D, imin: D, imax: D, x: int, y: int): (v: int)
    ensures 0 <= v < MaxIteration
  {
    EscapeTime(ops, ops.sample(rmin, rmax, x, width), ops.sample(imin, imax, y, height), MaxIteration)
  }

  /** One iteration of CalcMandel's `omp for` loop, for column x: for every
      y it stores the sample point of (x, y) at index y * width + x of the
      coordinate arrays and runs MandelBrotIterations there. Afterwards every cell of column x holds its
      escape time and has been written once more; no other cell of the grid,
      and nothing past it, has changed. */
  method CalcColumn<D>(ops: FloatOps<D>, width: int, height: int,
                       rmin: D, rmax: D, imin: D, imax: D, x: int,
                       rvals: array<D>, ivals: array<D>, outdata: array<PixelVal>,
                       ghost writes: seq<nat>)
    returns (ghost writes': seq<nat>)
    requires 0 <= x < width && 0 <= height
    requires width * height <= rvals.Length && width * height <= ivals.Length
    requires width * height <= outdata.Length && |writes| == width * height
    requires rvals != ivals && outdata as object != rvals as object && outdata as object != ivals as object
    modifies rvals, ivals, outdata
    ensures |writes'| == |writes|
    ensures forall y :: 0 <= y < height ==>
      outdata[GridIndex(x, y, width, height)] as int == CellValue(ops, width, height, rmin, rmax, imin, imax, x, y)
    ensures forall x', y :: 0 <= x' < width && 0 <= y < height && x' != x ==>
      outdata[GridIndex(x', y, width, height)] == old(outdata[GridIndex(x', y, width, height)])
    ensures forall x', y :: 0 <= x' < width && 0 <= y < height ==>
      writes'[GridIndex(x', y, width, height)] == writes[GridIndex(x', y, width, height)] + if x' == x then 1 else 0
    ensures forall j :: width * height <= j < outdata.Length ==> outdata[j] == old(outdata[j])
  {
    var rval0 := ops.sample(rmin, rmax, x, width);
    writes' := writes;
    var y := 0;
    while y < height
      invariant 0 <= y <= height
      invariant |writes'| == |writes|
      invariant forall y' :: 0 <= y' < y ==>
        outdata[GridIndex(x, y', width, height)] as int == CellValue(ops, width, height, rmin, rmax, imin, imax, x, y')
      invariant forall x', y' :: 0 <= x' < width && 0 <= y' < height && (x' != x || y' >= y) ==>
        outdata[GridIndex(x', y', width, height)] == old(outdata[GridIndex(x', y', width, height)])
      invariant forall x', y' :: 0 <= x' < width && 0 <= y' < height ==>
        writes'[GridIndex(x', y', width, height)] == writes[GridIndex(x', y', width, height)] + if x' == x && y' < y then 1 else 0
      invariant forall j :: width * height <= j < outdata.Length ==> outdata[j] == old(outdata[j])
    {
      var ival0 := ops.sample(imin, imax, y, height);
      var index := GridIndex(x, y, width, height);
      rvals[index] := rval0;
      ivals[index] := ival0;
      forall x', y' | 0 <= x' < width && 0 <= y' < height && GridIndex(x', y', width, height) == index
        ensures x' == x && y' == y
      {
        GridIndexInjective(x', y', x, y, width, height);
      }
      ghost var _ := MandelBrotIterations(ops, rvals, ivals, outdata, MaxIteration, index);
      writes' := writes'[index := writes'[index] + 1];
      y := y + 1;
    }
  }

  /** CalcMandel, run sequentially: every cell (x, y) of the grid receives
      the escape time of its sample point at index y * width + x, every index
      below width * height is written exactly once (`writes` counts the
      writes per index), every stored value is below MAXITERATION, nothing
      past the grid changes, and the result is 0. */
  method CalcMandel<D(0)>(ops: FloatOps<D>, width: int, height: int,
                          rmin: D, rmax: D, imin: D, imax: D, outdata: array<PixelVal>)
    returns (status: int, ghost writes: seq<nat>)
    requires 0 <= width && 0 <= height && width * height <= Int32Max
    requires width * height <= outdata.Length
    modifies outdata
    ensures status == 0
    ensures forall x, y :: 0 <= x < width && 0 <= y < height ==>
      outdata[GridIndex(x, y, width, height)] as int == CellValue(ops, width, height, rmin, rmax, imin, imax, x, y)
    ensures |writes| == width * height && forall j :: 0 <= j < |writes| ==> writes[j] == 1
    ensures forall j :: 0 <= j < width * height ==> outdata[j] as int < MaxIteration
    ensures forall j :: width * height <= j < outdata.Length ==> outdata[j] == old(outdata[j])
  {
    var numElements := width * height;
    var rvals := new D[numElements];
    var ivals := new D[numElements];
    writes := seq(numElements, _ => 0);
    var x := 0;
    while x < width
      invariant 0 <= x <= width
      invariant |writes| == numElements
      invariant forall x', y' :: 0 <= x' < width && 0 <= y' < height ==>
        writes[GridIndex(x', y', width, height)] == if x' < x then 1 else 0
      invariant forall x', y' :: 0 <= x' < x && 0 <= y' < height ==>
        outdata[GridIndex(x', y', width, height)] as int == CellValue(ops, width, height, rmin, rmax, imin, imax, x', y')
      invariant forall x', y' :: x <= x' < width && 0 <= y' < height ==>
        outdata[GridIndex(x', y', width, height)] == old(outdata[GridIndex(x', y', width, height)])
      invariant forall j :: numElements <= j < outdata.Length ==> outdata[j] == old(outdata[j])
    {
      writes := CalcColumn(ops, width, height, rmin, rmax, imin, imax, x, rvals, ivals, outdata, writes);
      x := x + 1;
    }
    forall j | 0 <= j < width * height
      ensures writes[j] == 1 && outdata[j] as int < MaxIteration
    {
      GridIndexOnto(j, width, height);
      var x', y' := j % width, j / width;
      EscapeTimeRange(ops, ops.sample(rmin, rmax, x', width), ops.sample(imin, imax, y', height), MaxIteration);
    }
    status := 0;
  }
}
