/** The escape-time iteration for one point (scalar::mandel) and for one group of N points
    (tsimd::mandel), with the reference functions that say what each computes and the lemmas
    that relate the two. */
module Mandel {
  import opened Lanes

  datatype Complex = Complex(re: Float, im: Float)

  /** re*re + im*im, as both kernels compute it. */
  function Mag2(z: Complex): Float {
    Add(Mul(z.re, z.re), Mul(z.im, z.im))
  }

  /** The scalar loop's exit test: the squared magnitude is > 4. */
  predicate Escaped(fp: FloatOps, z: Complex) {
    fp.gt(Mag2(z), Num(4.0))
  }

  /** The vector loop's activity test: the squared magnitude is <= 4. For exact arithmetic
      this is the negation of Escaped; with IEEE floats both are false on NaN. */
  predicate InDisk(fp: FloatOps, z: Complex) {
    fp.le(Mag2(z), Num(4.0))
  }

  /** One step z := z*z + c, in the kernels' order of operations: new_re = re*re - im*im,
      new_im = (2*re)*im, then c added on the left. */
  function Step(z: Complex, c: Complex): Complex {
    Complex(Add(c.re, Sub(Mul(z.re, z.re), Mul(z.im, z.im))),
            Add(c.im, Mul(Mul(Num(2.0), z.re), z.im)))
  }

  /** z_k of the orbit that both kernels follow: z_0 = c, z_{k+1} = Step(z_k, c). */
  function Orbit(c: Complex, k: nat): Complex {
    if k == 0 then c else Step(Orbit(c, k - 1), c)
  }

  // ---------------------------------------------------------------------------------------
  // Scalar reference

  /** The first iteration t in [k, count) at which the orbit has escaped, or max(k, count) if
      there is none. */
  function EscapeSearch(fp: FloatOps, c: Complex, k: nat, count: int): (r: nat)
    ensures k <= r && (r == k || r <= count)
    ensures forall t :: k <= t < r ==> !Escaped(fp, Orbit(c, t))
    ensures r < count ==> Escaped(fp, Orbit(c, r))
    decreases count - k
  {
    if k >= count then k
    else if Escaped(fp, Orbit(c, k)) then k
    else EscapeSearch(fp, c, k + 1, count)
  }

  /** The escape time of c within count iterations: the least k < count at which z_k has
      escaped, or count when no such k exists; 0 when count <= 0. */
  function EscapeTime(fp: FloatOps, c: Complex, count: int): (r: nat)
    ensures count <= 0 ==> r == 0
    ensures count >= 0 ==> r <= count
    ensures forall t :: 0 <= t < r ==> !Escaped(fp, Orbit(c, t))
    ensures r < count ==> Escaped(fp, Orbit(c, r))
  {
    EscapeSearch(fp, c, 0, count)
  }

  /** The characterisation of EscapeTime determines it: any r with its properties is it. */
  lemma EscapeTimeUnique(fp: FloatOps, c: Complex, count: int, r: nat)
    requires (count <= 0 ==> r == 0) && (count >= 0 ==> r <= count)
    requires forall t :: 0 <= t < r ==> !Escaped(fp, Orbit(c, t))
    requires r < count ==> Escaped(fp, Orbit(c, r))
    ensures r == EscapeTime(fp, c, count)
  {
  }

  /** scalar::mandel(c_re, c_im, count) */
  method ScalarMandel(fp: FloatOps, c_re: Float, c_im: Float, count: int) returns (r: int)
    ensures r == EscapeTime(fp, Complex(c_re, c_im), count)
    ensures 0 <= r && (count <= 0 ==> r == 0) && (count >= 0 ==> r <= count)
    ensures forall t :: 0 <= t < r ==> !Escaped(fp, Orbit(Complex(c_re, c_im), t))
    ensures r < count ==> Escaped(fp, Orbit(Complex(c_re, c_im), r))
  {
    var z_re, z_im := c_re, c_im;
    var i := 0;
    while i < count
      invariant 0 <= i && (count >= 0 ==> i <= count) && (count < 0 ==> i == 0)
      invariant Complex(z_re, z_im) == Orbit(Complex(c_re, c_im), i)
      invariant forall t :: 0 <= t < i ==> !Escaped(fp, Orbit(Complex(c_re, c_im), t))
    {
      if fp.gt(Add(Mul(z_re, z_re), Mul(z_im, z_im)), Num(4.0)) {
        break;
      }
      var new_re := Sub(Mul(z_re, z_re), Mul(z_im, z_im));
      var new_im := Mul(Mul(Num(2.0), z_re), z_im);
      z_re := Add(c_re, new_re);
      z_im := Add(c_im, new_im);
      i := i + 1;
    }
    r := i;
    EscapeTimeUnique(fp, Complex(c_re, c_im), count, r);
  }

  // ---------------------------------------------------------------------------------------
  // Vector reference

  /** The point of lane l of a group. */
  function LanePoint(c_re: VFloat, c_im: VFloat, l: int): Complex
    requires 0 <= l < N
  {
    Complex(c_re[l], c_im[l])
  }

  /** The mask `active` that tsimd::mandel computes in iteration t: lanes that were enabled
      on entry and whose z_t is in the disk. */
  function ActiveAt(fp: FloatOps, active0: VBool, c_re: VFloat, c_im: VFloat, t: nat): VBool {
    seq(N, l requires 0 <= l < N => active0[l] && InDisk(fp, Orbit(LanePoint(c_re, c_im, l), t)))
  }

  /** The first iteration t in [k, maxIters) whose mask has no lane on, or max(k, maxIters). */
  function BreakSearch(fp: FloatOps, active0: VBool, c_re: VFloat, c_im: VFloat, k: nat, maxIters: int): (r: nat)
    ensures k <= r && (r == k || r <= maxIters)
    decreases maxIters - k
  {
    if k >= maxIters then k
    else if None(ActiveAt(fp, active0, c_re, c_im, k)) then k
    else BreakSearch(fp, active0, c_re, c_im, k + 1, maxIters)
  }

  /** The search passes only iterations with a lane on, and stops before maxIters only at an
      iteration with none on. */
  lemma {:induction false} BreakSearchStops(fp: FloatOps, active0: VBool, c_re: VFloat, c_im: VFloat, k: nat, maxIters: int)
    ensures forall t :: k <= t < BreakSearch(fp, active0, c_re, c_im, k, maxIters) ==>
              !None(ActiveAt(fp, active0, c_re, c_im, t))
    ensures BreakSearch(fp, active0, c_re, c_im, k, maxIters) < maxIters ==>
              None(ActiveAt(fp, active0, c_re, c_im, BreakSearch(fp, active0, c_re, c_im, k, maxIters)))
    decreases maxIters - k
  {
    if k < maxIters && !None(ActiveAt(fp, active0, c_re, c_im, k)) {
      BreakSearchStops(fp, active0, c_re, c_im, k + 1, maxIters);
    }
  }

  /** The number of iterations tsimd::mandel runs before it stops: the first iteration in
      which no lane is active (the `break`), or maxIters. */
  function BreakIter(fp: FloatOps, active0: VBool, c_re: VFloat, c_im: VFloat, maxIters: int): (r: nat)
    ensures maxIters <= 0 ==> r == 0
    ensures maxIters >= 0 ==> r <= maxIters
  {
    BreakSearch(fp, active0, c_re, c_im, 0, maxIters)
  }

  /** Every iteration before BreakIter has a lane on; BreakIter, when below maxIters, has
      none. */
  lemma BreakIterStops(fp: FloatOps, active0: VBool, c_re: VFloat, c_im: VFloat, maxIters: int)
    ensures forall t :: 0 <= t < BreakIter(fp, active0, c_re, c_im, maxIters) ==>
              !None(ActiveAt(fp, active0, c_re, c_im, t))
    ensures BreakIter(fp, active0, c_re, c_im, maxIters) < maxIters ==>
              None(ActiveAt(fp, active0, c_re, c_im, BreakIter(fp, active0, c_re, c_im, maxIters)))
  {
    BreakSearchStops(fp, active0, c_re, c_im, 0, maxIters);
  }

  /** The characterisation of BreakIter determines it. */
  lemma BreakIterUnique(fp: FloatOps, active0: VBool, c_re: VFloat, c_im: VFloat, maxIters: int, r: nat)
    requires (maxIters <= 0 ==> r == 0) && (maxIters >= 0 ==> r <= maxIters)
    requires forall t :: 0 <= t < r ==> !None(ActiveAt(fp, active0, c_re, c_im, t))
    requires r < maxIters ==> None(ActiveAt(fp, active0, c_re, c_im, r))
    ensures r == BreakIter(fp, active0, c_re, c_im, maxIters)
  {
    BreakIterStops(fp, active0, c_re, c_im, maxIters);
  }

  /** The number of iterations t < k in which z_t of c is in the disk: the times the counter
      of an enabled lane is advanced within the first k iterations. */
  function DiskCount(fp: FloatOps, c: Complex, k: nat): (r: nat)
    ensures r <= k
  {
    if k == 0 then 0
    else DiskCount(fp, c, k - 1) + (if InDisk(fp, Orbit(c, k - 1)) then 1 else 0)
  }

  /** The counters after k passes of the loop body: an enabled lane has counted the
      iterations below k in which it was in the disk, a disabled lane nothing. */
  function Counts(fp: FloatOps, active0: VBool, c_re: VFloat, c_im: VFloat, k: nat): VInt {
    seq(N, l requires 0 <= l < N =>
      if active0[l] then DiskCount(fp, LanePoint(c_re, c_im, l), k) else 0)
  }

  /** What tsimd::mandel returns: lane l counts the iterations before the loop stopped in
      which it was active; a lane disabled on entry stays 0, and no lane exceeds maxIters. */
  function MandelLanes(fp: FloatOps, active0: VBool, c_re: VFloat, c_im: VFloat, maxIters: int): VInt {
    Counts(fp, active0, c_re, c_im, BreakIter(fp, active0, c_re, c_im, maxIters))
  }

  /** No lane of tsimd::mandel's result is negative or exceeds maxIters, and a lane disabled on
      entry, or every lane when maxIters <= 0, is 0. */
  lemma MandelLanesBounds(fp: FloatOps, active0: VBool, c_re: VFloat, c_im: VFloat, maxIters: int)
    ensures var r := MandelLanes(fp, active0, c_re, c_im, maxIters);
            forall l :: 0 <= l < N ==>
              0 <= r[l] && (maxIters >= 0 ==> r[l] <= maxIters) && (maxIters <= 0 ==> r[l] == 0) &&
              (!active0[l] ==> r[l] == 0)
  {
  }

  /** One pass of the loop body on the counters, select(active, vi + 1, vi) with the mask of
      iteration k, takes the counters of k passes to those of k + 1: each lane grows by one
      exactly where it is active. */
  lemma AdvanceCounters(fp: FloatOps, active0: VBool, c_re: VFloat, c_im: VFloat, k: nat)
    ensures Select(ActiveAt(fp, active0, c_re, c_im, k),
                   AddI(Counts(fp, active0, c_re, c_im, k), BroadcastI(1)),
                   Counts(fp, active0, c_re, c_im, k))
            == Counts(fp, active0, c_re, c_im, k + 1)
  {
  }

  /** A lane's counter never decreases from one pass of the loop body to a later one. */
  lemma {:induction false} CountsMonotone(fp: FloatOps, active0: VBool, c_re: VFloat, c_im: VFloat, k: nat, k': nat, l: int)
    requires k <= k' && 0 <= l < N
    ensures Counts(fp, active0, c_re, c_im, k)[l] <= Counts(fp, active0, c_re, c_im, k')[l]
    decreases k' - k
  {
    if k < k' {
      CountsMonotone(fp, active0, c_re, c_im, k, k' - 1, l);
    }
  }

  /** The lanes z_re, z_im hold z_i of their points. */
  ghost predicate LanesAt(z_re: VFloat, z_im: VFloat, c_re: VFloat, c_im: VFloat, i: nat) {
    forall l :: 0 <= l < N ==> Complex(z_re[l], z_im[l]) == Orbit(LanePoint(c_re, c_im, l), i)
  }

  /** The vector form of the activity test computes the mask of iteration i. */
  lemma ActiveLanes(fp: FloatOps, active0: VBool, z_re: VFloat, z_im: VFloat, c_re: VFloat, c_im: VFloat, i: nat)
    requires LanesAt(z_re, z_im, c_re, c_im, i)
    ensures And(active0, LeF(fp, AddF(MulF(z_re, z_re), MulF(z_im, z_im)), BroadcastF(Num(4.0))))
              == ActiveAt(fp, active0, c_re, c_im, i)
  {
    forall l | 0 <= l < N
      ensures Mag2(Orbit(LanePoint(c_re, c_im, l), i))
                == AddF(MulF(z_re, z_re), MulF(z_im, z_im))[l]
    {
      assert Complex(z_re[l], z_im[l]) == Orbit(LanePoint(c_re, c_im, l), i);
    }
  }

  /** The vector form of one step advances every lane from z_i to z_{i+1}. */
  lemma StepLanes(z_re: VFloat, z_im: VFloat, c_re: VFloat, c_im: VFloat, i: nat)
    requires LanesAt(z_re, z_im, c_re, c_im, i)
    ensures LanesAt(AddF(c_re, SubF(MulF(z_re, z_re), MulF(z_im, z_im))),
                        AddF(c_im, MulF(MulF(BroadcastF(Num(2.0)), z_re), z_im)), c_re, c_im, i + 1)
  {
    forall l | 0 <= l < N
      ensures Complex(AddF(c_re, SubF(MulF(z_re, z_re), MulF(z_im, z_im)))[l],
                      AddF(c_im, MulF(MulF(BroadcastF(Num(2.0)), z_re), z_im))[l])
                == Orbit(LanePoint(c_re, c_im, l), i + 1)
    {
      assert Complex(z_re[l], z_im[l]) == Orbit(LanePoint(c_re, c_im, l), i);
    }
  }

  /** One pass of the loop body of tsimd::mandel on lanes holding z_i: the mask of
      iteration i, and, unless it has no lane on (the `break`), the lanes advanced to z_{i+1}
      and the counters of iteration i + 1. */
  method IterateLanes(fp: FloatOps, active0: VBool, c_re: VFloat, c_im: VFloat, z_re: VFloat, z_im: VFloat,
                      vi: VInt, ghost i: nat)
    returns (stop: bool, z_re': VFloat, z_im': VFloat, vi': VInt)
    requires LanesAt(z_re, z_im, c_re, c_im, i) && vi == Counts(fp, active0, c_re, c_im, i)
    ensures stop == None(ActiveAt(fp, active0, c_re, c_im, i))
    ensures stop ==> vi' == vi
    ensures !stop ==> LanesAt(z_re', z_im', c_re, c_im, i + 1) && vi' == Counts(fp, active0, c_re, c_im, i + 1)
  {
    var active := And(active0, LeF(fp, AddF(MulF(z_re, z_re), MulF(z_im, z_im)), BroadcastF(Num(4.0))));
    ActiveLanes(fp, active0, z_re, z_im, c_re, c_im, i);
    stop := None(active);
    z_re', z_im', vi' := z_re, z_im, vi;
    if !stop {
      StepLanes(z_re, z_im, c_re, c_im, i);
      AdvanceCounters(fp, active0, c_re, c_im, i);
      var new_re := SubF(MulF(z_re, z_re), MulF(z_im, z_im));
      var new_im := MulF(MulF(BroadcastF(Num(2.0)), z_re), z_im);
      z_re' := AddF(c_re, new_re);
      z_im' := AddF(c_im, new_im);
      vi' := Select(active, AddI(vi, BroadcastI(1)), vi);
    }
  }

  /** tsimd::mandel(_active, c_re, c_im, maxIters) */
  method TsimdMandel(fp: FloatOps, active0: VBool, c_re: VFloat, c_im: VFloat, maxIters: int)
    returns (vi: VInt)
    ensures vi == MandelLanes(fp, active0, c_re, c_im, maxIters)
    ensures forall l :: 0 <= l < N && !active0[l] ==> vi[l] == 0
    ensures forall l :: 0 <= l < N ==> 0 <= vi[l] && (maxIters >= 0 ==> vi[l] <= maxIters)
  {
    var z_re, z_im := c_re, c_im;
    vi := BroadcastI(0);
    var i := 0;
    while i < maxIters
      invariant 0 <= i && (maxIters >= 0 ==> i <= maxIters) && (maxIters < 0 ==> i == 0)
      invariant LanesAt(z_re, z_im, c_re, c_im, i)
      invariant vi == Counts(fp, active0, c_re, c_im, i)
      invariant forall t :: 0 <= t < i ==> !None(ActiveAt(fp, active0, c_re, c_im, t))
    {
      var stop;
      stop, z_re, z_im, vi := IterateLanes(fp, active0, c_re, c_im, z_re, z_im, vi, i);
      if stop {
        break;
      }
      i := i + 1;
    }
    BreakIterUnique(fp, active0, c_re, c_im, maxIters, i);
    MandelLanesBounds(fp, active0, c_re, c_im, maxIters);
  }

  // ---------------------------------------------------------------------------------------
  // Per-lane parity

  /** For the first count iterates of c, the vector test `<= 4` is the negation of the scalar
      test `> 4`. Exact arithmetic satisfies this; IEEE floats satisfy it unless an iterate's
      squared magnitude is NaN. */
  ghost predicate ComparesConsistently(fp: FloatOps, c: Complex, count: int) {
    forall t :: 0 <= t < count ==> (InDisk(fp, Orbit(c, t)) <==> !Escaped(fp, Orbit(c, t)))
  }

  /** Comparisons by a real valuation (exact arithmetic, or IEEE-754 without NaN) compare
      consistently, whatever c and count. */
  lemma OrderedComparesConsistently(value: Float -> real, c: Complex, count: int)
    ensures ComparesConsistently(OrderedBy(value), c, count)
  {
  }

  /** Once z_t of c has escaped (for t + 1 < count), z_{t+1} has escaped too. This holds of
      the exact complex iteration; it is a hypothesis here, not proved. */
  ghost predicate StaysEscaped(fp: FloatOps, c: Complex, count: int) {
    forall t :: 0 <= t && t + 1 < count && Escaped(fp, Orbit(c, t)) ==> Escaped(fp, Orbit(c, t + 1))
  }

  /** Under StaysEscaped, an orbit that has escaped at e is escaped at every later t < count. */
  lemma {:induction false} EscapedFrom(fp: FloatOps, c: Complex, count: int, e: nat, t: nat)
    requires StaysEscaped(fp, c, count) && Escaped(fp, Orbit(c, e)) && e <= t < count
    ensures Escaped(fp, Orbit(c, t))
    decreases t - e
  {
    if t > e {
      EscapedFrom(fp, c, count, e, t - 1);
    }
  }

  /** When the two tests agree and escape is permanent, counting the in-disk iterations below
      any k up to count gives min(k, escape time). */
  lemma {:induction false} CountIsEscapeTime(fp: FloatOps, c: Complex, count: int, k: nat)
    requires ComparesConsistently(fp, c, count) && StaysEscaped(fp, c, count)
    requires k <= count || k <= EscapeTime(fp, c, count)
    ensures DiskCount(fp, c, k) == if k <= EscapeTime(fp, c, count) then k else EscapeTime(fp, c, count)
  {
    var e := EscapeTime(fp, c, count);
    if k > 0 {
      CountIsEscapeTime(fp, c, count, k - 1);
      if k - 1 >= e {
        EscapedFrom(fp, c, count, e, k - 1);
      }
    }
  }

  /** The early exit is exact: when every enabled lane compares consistently and stays
      escaped, no lane would become active again in the iterations the loop no longer runs. */
  lemma NothingActiveAfterBreak(fp: FloatOps, active0: VBool, c_re: VFloat, c_im: VFloat, maxIters: int, t: nat)
    requires forall l :: 0 <= l < N && active0[l] ==>
               ComparesConsistently(fp, LanePoint(c_re, c_im, l), maxIters) &&
               StaysEscaped(fp, LanePoint(c_re, c_im, l), maxIters)
    requires BreakIter(fp, active0, c_re, c_im, maxIters) <= t < maxIters
    ensures None(ActiveAt(fp, active0, c_re, c_im, t))
  {
    var b := BreakIter(fp, active0, c_re, c_im, maxIters);
    BreakIterStops(fp, active0, c_re, c_im, maxIters);
    forall l | 0 <= l < N && active0[l]
      ensures !InDisk(fp, Orbit(LanePoint(c_re, c_im, l), t))
    {
      assert !ActiveAt(fp, active0, c_re, c_im, b)[l];
      EscapedFrom(fp, LanePoint(c_re, c_im, l), maxIters, b, t);
    }
  }

  /** Lane l of tsimd::mandel equals scalar::mandel on that lane's point, when the lane is
      enabled on entry, its two escape tests agree and its orbit stays escaped. */
  lemma LaneMatchesScalar(fp: FloatOps, active0: VBool, c_re: VFloat, c_im: VFloat, maxIters: int, l: int)
    requires 0 <= l < N && active0[l]
    requires ComparesConsistently(fp, LanePoint(c_re, c_im, l), maxIters)
    requires StaysEscaped(fp, LanePoint(c_re, c_im, l), maxIters)
    ensures MandelLanes(fp, active0, c_re, c_im, maxIters)[l]
              == EscapeTime(fp, LanePoint(c_re, c_im, l), maxIters)
  {
    var c := LanePoint(c_re, c_im, l);
    var b := BreakIter(fp, active0, c_re, c_im, maxIters);
    BreakIterStops(fp, active0, c_re, c_im, maxIters);
    if b < maxIters {
      assert !ActiveAt(fp, active0, c_re, c_im, b)[l];
      assert Escaped(fp, Orbit(c, b));
    }
    CountIsEscapeTime(fp, c, maxIters, b);
  }
}
