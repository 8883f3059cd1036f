/** The trigonometric pipeline with a conditional write: scalar::saxpy_trig writes out[i] only
    when the refined result exceeds 1, and tsimd::saxpy_trig reproduces that with a masked
    store per group. The vector kernel's write mask also carries a lane condition, modelled
    both as written and as evidently intended (Guard). */
module SaxpyTrig {
  import opened Lanes

  /** EXTRA_TANGENT_ITERATIONS: how many more times tan is applied to the first result. */
  const ExtraTangentIterations: nat := 10

  /** tan applied k times to r. */
  function TanIter(r: Float, k: nat): Float {
    if k == 0 then r else Tan(TanIter(r, k - 1))
  }

  /** The value both kernels compute for one element: tan(a * sin(xi) + cos(yi)), followed by
      ExtraTangentIterations further applications of tan. */
  function Pipeline(a: Float, xi: Float, yi: Float): Float {
    TanIter(Tan(Add(Mul(a, Sin(xi)), Cos(yi))), ExtraTangentIterations)
  }

  /** The value condition shared by both kernels: result > 1. */
  predicate Exceeds(fp: FloatOps, a: Float, xi: Float, yi: Float) {
    fp.gt(Pipeline(a, xi, yi), Num(1.0))
  }

  /** The inner loop of scalar::saxpy_trig: result := tan(result), ExtraTangentIterations
      times. */
  method Refine(r0: Float) returns (result: Float)
    ensures result == TanIter(r0, ExtraTangentIterations)
  {
    result := r0;
    var j := 0;
    while j < ExtraTangentIterations
      invariant 0 <= j <= ExtraTangentIterations
      invariant result == TanIter(r0, j)
    {
      result := Tan(result);
      j := j + 1;
    }
  }

  /** The inner loop of tsimd::saxpy_trig: result := tsimd::tan(result), lane-wise,
      ExtraTangentIterations times. */
  method RefineLanes(r0: VFloat) returns (result: VFloat)
    ensures forall l :: 0 <= l < N ==> result[l] == TanIter(r0[l], ExtraTangentIterations)
  {
    result := r0;
    var j := 0;
    while j < ExtraTangentIterations
      invariant 0 <= j <= ExtraTangentIterations
      invariant forall l :: 0 <= l < N ==> result[l] == TanIter(r0[l], j)
    {
      result := TanF(result);
      j := j + 1;
    }
  }

  // ---------------------------------------------------------------------------------------
  // Scalar kernel

  /** The buffer o after scalar::saxpy_trig over the first len elements: out[k] is set to the
      refined result exactly when k < len and the result exceeds 1. */
  function ScalarOut(fp: FloatOps, a: Float, len: int, xs: seq<Float>, ys: seq<Float>, o: seq<Float>): (r: seq<Float>)
    requires len <= |xs| && len <= |ys|
    ensures |r| == |o|
  {
    seq(|o|, k requires 0 <= k < |o| =>
      if k < len && Exceeds(fp, a, xs[k], ys[k]) then Pipeline(a, xs[k], ys[k]) else o[k])
  }

  /** Every index scalar::saxpy_trig writes lies inside a buffer of length len. The elements
      it does not write may lie beyond. */
  predicate ScalarStoresFit(fp: FloatOps, a: Float, n: int, xs: seq<Float>, ys: seq<Float>, len: int)
    requires n <= |xs| && n <= |ys|
  {
    forall k :: 0 <= k < n && Exceeds(fp, a, xs[k], ys[k]) ==> k < len
  }

  /** scalar::saxpy_trig(a, n, x, y, out). */
  method ScalarSaxpyTrig(fp: FloatOps, a: Float, n: int, x: array<Float>, y: array<Float>, out: array<Float>)
    requires n <= x.Length && n <= y.Length
    requires ScalarStoresFit(fp, a, n, x[..], y[..], out.Length)
    modifies out
    ensures out[..] == ScalarOut(fp, a, n, old(x[..]), old(y[..]), old(out[..]))
    ensures out != x ==> x[..] == old(x[..])
    ensures out != y ==> y[..] == old(y[..])
  {
    ghost var xs, ys, o := x[..], y[..], out[..];
    var i := 0;
    while i < n
      invariant 0 <= i && (n >= 0 ==> i <= n) && (n < 0 ==> i == 0)
      invariant out[..] == ScalarOut(fp, a, i, xs, ys, o)
      invariant forall k :: i <= k < x.Length ==> x[k] == xs[k]
      invariant forall k :: i <= k < y.Length ==> y[k] == ys[k]
    {
      var xi := x[i];
      var yi := y[i];
      var result := Tan(Add(Mul(a, Sin(xi)), Cos(yi)));
      result := Refine(result);
      if fp.gt(result, Num(1.0)) {
        out[i] := result;
      }
      i := i + 1;
    }
    assert ScalarOut(fp, a, i, xs, ys, o) == ScalarOut(fp, a, n, xs, ys, o);
  }

  // ---------------------------------------------------------------------------------------
  // Vector kernel

  /** The lane condition of the write mask. AsWritten is the test at saxpy_trig.cpp:96,
      (n + lane_index) > n, which holds exactly for the lanes other than 0. InBounds is the
      evidently intended (i + lane_index) < n, which holds exactly for elements below n. */
  datatype Guard = AsWritten | InBounds

  /** The lane condition for element k (lane k % N of the group starting at k - k % N). */
  predicate LaneEnabled(guard: Guard, n: int, k: int) {
    match guard
    case AsWritten => n + k % N > n
    case InBounds => k < n
  }

  /** The lane condition as a vector for the group starting at i. */
  function LaneMask(guard: Guard, n: int, i: int): (m: VBool)
    ensures forall l :: 0 <= l < N ==> (m[l] <==> match guard
                                                   case AsWritten => n + l > n
                                                   case InBounds => i + l < n)
  {
    match guard
    case AsWritten => GtI(AddI(BroadcastI(n), LaneIndex()), BroadcastI(n))
    case InBounds => LtI(AddI(BroadcastI(i), LaneIndex()), BroadcastI(n))
  }

  /** Element k is written by the vector kernel: it lies in a visited group, its lane
      condition holds, and its result exceeds 1. */
  predicate VectorWrites(fp: FloatOps, guard: Guard, a: Float, n: int, xs: seq<Float>, ys: seq<Float>, k: int)
    requires 0 <= k < |xs| && k < |ys|
  {
    k < GroupsEnd(n) && LaneEnabled(guard, n, k) && Exceeds(fp, a, xs[k], ys[k])
  }

  /** The buffer o after the vector kernel has handled the groups below upto. */
  function VectorOut(fp: FloatOps, guard: Guard, a: Float, n: int, upto: int,
                     xs: seq<Float>, ys: seq<Float>, o: seq<Float>): (r: seq<Float>)
    requires upto <= |xs| && upto <= |ys|
    ensures |r| == |o|
  {
    seq(|o|, k requires 0 <= k < |o| =>
      if k < upto && LaneEnabled(guard, n, k) && Exceeds(fp, a, xs[k], ys[k])
      then Pipeline(a, xs[k], ys[k]) else o[k])
  }

  /** Every lane the vector kernel stores lies inside a buffer of length len. Lanes whose
      mask is off may lie beyond: the masked store does not touch them. */
  predicate VectorStoresFit(fp: FloatOps, guard: Guard, a: Float, n: int, xs: seq<Float>, ys: seq<Float>, len: int)
    requires GroupsEnd(n) <= |xs| && GroupsEnd(n) <= |ys|
  {
    forall k :: 0 <= k < GroupsEnd(n) && VectorWrites(fp, guard, a, n, xs, ys, k) ==> k < len
  }

  /** The loop body of tsimd::saxpy_trig up to the store, on the lanes xi, yi of the group
      starting at i: the refined results and the write mask, which is on exactly for the
      lanes whose lane condition holds and whose result exceeds 1. */
  method TrigLanes(fp: FloatOps, guard: Guard, a: Float, n: int, i: int, xi: VFloat, yi: VFloat)
    returns (result: VFloat, write_result: VBool)
    requires i % N == 0
    ensures forall l :: 0 <= l < N ==> result[l] == Pipeline(a, xi[l], yi[l])
    ensures forall l :: 0 <= l < N ==>
              write_result[l] == (LaneEnabled(guard, n, i + l) && Exceeds(fp, a, xi[l], yi[l]))
  {
    result := TanF(AddF(MulF(BroadcastF(a), SinF(xi)), CosF(yi)));
    result := RefineLanes(result);
    write_result := And(GtF(fp, result, BroadcastF(Num(1.0))), LaneMask(guard, n, i));
    forall l | 0 <= l < N
      ensures write_result[l] == (LaneEnabled(guard, n, i + l) && Exceeds(fp, a, xi[l], yi[l]))
    {
      LaneOfGroup(i, l);
    }
  }

  /** One group: the masked store of the refined results under the write mask extends the
      vector kernel's output from the groups below i to those below i + N, and every lane it
      writes lies in the buffer. */
  lemma TrigGroup(fp: FloatOps, guard: Guard, a: Float, n: int, i: int,
                  xs: seq<Float>, ys: seq<Float>, o: seq<Float>, result: VFloat, m: VBool)
    requires 0 <= i && i + N <= GroupsEnd(n) && GroupsEnd(n) <= |xs| && GroupsEnd(n) <= |ys|
    requires VectorStoresFit(fp, guard, a, n, xs, ys, |o|)
    requires forall l :: 0 <= l < N ==> result[l] == Pipeline(a, xs[i + l], ys[i + l])
    requires forall l :: 0 <= l < N ==> m[l] == (LaneEnabled(guard, n, i + l) && Exceeds(fp, a, xs[i + l], ys[i + l]))
    ensures MaskFits(|o|, i, m)
    ensures MaskStored(VectorOut(fp, guard, a, n, i, xs, ys, o), i, result, m)
            == VectorOut(fp, guard, a, n, i + N, xs, ys, o)
  {
    forall l | 0 <= l < N && m[l]
      ensures i + l < |o|
    {
      assert VectorWrites(fp, guard, a, n, xs, ys, i + l);
    }
  }

  /** One pass of the loop of tsimd::saxpy_trig, on the group starting at i: the buffer goes
      from the output of the groups below i to that of the groups below i + N. The masked
      store writes out[i..i+N) at most, so x and y (which out may alias) still hold their
      old elements from i + N on. */
  method TrigStep(fp: FloatOps, guard: Guard, a: Float, n: int, x: array<Float>, y: array<Float>, out: array<Float>,
                  i: int, ghost xs: seq<Float>, ghost ys: seq<Float>, ghost o: seq<Float>)
    requires 0 <= i < n && i % N == 0 && |xs| == x.Length && |ys| == y.Length && |o| == out.Length
    requires GroupsEnd(n) <= x.Length && GroupsEnd(n) <= y.Length
    requires VectorStoresFit(fp, guard, a, n, xs, ys, out.Length)
    requires out[..] == VectorOut(fp, guard, a, n, i, xs, ys, o)
    requires forall k :: i <= k < x.Length ==> x[k] == xs[k]
    requires forall k :: i <= k < y.Length ==> y[k] == ys[k]
    modifies out
    ensures out[..] == VectorOut(fp, guard, a, n, i + N, xs, ys, o)
    ensures forall k :: i + N <= k < x.Length ==> x[k] == xs[k]
    ensures forall k :: i + N <= k < y.Length ==> y[k] == ys[k]
  {
    GroupInWalk(n, i);
    var xi := Load(x[..], i);
    var yi := Load(y[..], i);
    assert xi == Load(xs, i) && yi == Load(ys, i);
    var result, write_result := TrigLanes(fp, guard, a, n, i, xi, yi);
    TrigGroup(fp, guard, a, n, i, xs, ys, o, result, write_result);
    StoreMaskedIfAny(result, out, i, write_result);
  }

  /** tsimd::saxpy_trig(a, n, x, y, out), with the lane condition of its write mask chosen by
      guard: AsWritten gives the kernel as it stands. Every group loads x[i..i+N) and
      y[i..i+N) in full. */
  method TsimdSaxpyTrig(fp: FloatOps, guard: Guard, a: Float, n: int,
                        x: array<Float>, y: array<Float>, out: array<Float>)
    requires GroupsEnd(n) <= x.Length && GroupsEnd(n) <= y.Length
    requires VectorStoresFit(fp, guard, a, n, x[..], y[..], out.Length)
    modifies out
    ensures out[..] == VectorOut(fp, guard, a, n, GroupsEnd(n), old(x[..]), old(y[..]), old(out[..]))
    ensures out != x ==> x[..] == old(x[..])
    ensures out != y ==> y[..] == old(y[..])
  {
    ghost var xs, ys, o := x[..], y[..], out[..];
    var i := 0;
    while i < n
      invariant 0 <= i <= GroupsEnd(n) && i % N == 0
      invariant out[..] == VectorOut(fp, guard, a, n, i, xs, ys, o)
      invariant forall k :: i <= k < x.Length ==> x[k] == xs[k]
      invariant forall k :: i <= k < y.Length ==> y[k] == ys[k]
    {
      TrigStep(fp, guard, a, n, x, y, out, i, xs, ys, o);
      GroupInWalk(n, i);
      NextGroup(i);
      i := i + N;
    }
  }

  // ---------------------------------------------------------------------------------------
  // Properties

  /** As written, the vector kernel never writes an element whose index is a multiple of N:
      lane 0 of every group fails (n + 0) > n. */
  lemma LaneZeroNeverStored(fp: FloatOps, a: Float, n: int, xs: seq<Float>, ys: seq<Float>, o: seq<Float>, k: int)
    requires GroupsEnd(n) <= |xs| && GroupsEnd(n) <= |ys| && 0 <= k < |o| && k % N == 0
    ensures VectorOut(fp, AsWritten, a, n, GroupsEnd(n), xs, ys, o)[k] == o[k]
  {
  }

  /** As written, and with n a whole number of groups, the vector kernel agrees with the
      scalar kernel at every index below n whose lane is not 0, and neither writes an index
      at or beyond n. */
  lemma AsWrittenMatchesScalarOffLaneZero(fp: FloatOps, a: Float, n: int, xs: seq<Float>, ys: seq<Float>, o: seq<Float>, k: int)
    requires n % N == 0 && GroupsEnd(n) <= |xs| && GroupsEnd(n) <= |ys|
    requires 0 <= k < |o| && (k >= n || k % N != 0)
    ensures n <= |xs| && n <= |ys|
    ensures VectorOut(fp, AsWritten, a, n, GroupsEnd(n), xs, ys, o)[k] == ScalarOut(fp, a, n, xs, ys, o)[k]
  {
    if n > 0 {
      GroupsEndExact(n);
    }
  }

  /** The lane-0 omission is observable: once n >= 1 and the result for element 0 exceeds 1,
      the scalar kernel sets out[0] to that result but the vector kernel as written leaves
      out[0] as it was. */
  lemma LaneZeroDiverges(fp: FloatOps, a: Float, n: int, xs: seq<Float>, ys: seq<Float>, o: seq<Float>)
    requires n >= 1 && GroupsEnd(n) <= |xs| && GroupsEnd(n) <= |ys| && |o| >= 1
    requires Exceeds(fp, a, xs[0], ys[0])
    ensures ScalarOut(fp, a, n, xs, ys, o)[0] == Pipeline(a, xs[0], ys[0])
    ensures VectorOut(fp, AsWritten, a, n, GroupsEnd(n), xs, ys, o)[0] == o[0]
  {
  }

  /** As written, the lane condition does not bound the stores by n: with n = 1, lane 1 of
      the only group is stored once its result exceeds 1, so a buffer of n elements, which
      holds every write of the scalar kernel, is too short for the vector kernel. */
  lemma AsWrittenStoresPastN(fp: FloatOps, a: Float, xs: seq<Float>, ys: seq<Float>)
    requires N <= |xs| && N <= |ys|
    requires Exceeds(fp, a, xs[1], ys[1])
    ensures ScalarStoresFit(fp, a, 1, xs, ys, 1)
    ensures !VectorStoresFit(fp, AsWritten, a, 1, xs, ys, 1)
  {
    assert VectorWrites(fp, AsWritten, a, 1, xs, ys, 1);
  }

  /** With the evidently intended lane condition, the vector kernel leaves out exactly as the
      scalar kernel does, for every n, and a buffer the scalar kernel's writes fit in also
      holds the vector kernel's. */
  lemma InBoundsMatchesScalar(fp: FloatOps, a: Float, n: int, xs: seq<Float>, ys: seq<Float>, o: seq<Float>)
    requires GroupsEnd(n) <= |xs| && GroupsEnd(n) <= |ys|
    ensures n <= |xs| && n <= |ys|
    ensures VectorOut(fp, InBounds, a, n, GroupsEnd(n), xs, ys, o) == ScalarOut(fp, a, n, xs, ys, o)
    ensures VectorStoresFit(fp, InBounds, a, n, xs, ys, |o|) <==> ScalarStoresFit(fp, a, n, xs, ys, |o|)
  {
    forall k | 0 <= k < GroupsEnd(n)
      ensures VectorWrites(fp, InBounds, a, n, xs, ys, k) <==> k < n && Exceeds(fp, a, xs[k], ys[k])
    {
    }
  }
}
