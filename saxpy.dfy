/** The linear combine out[i] = a * x[i] + y[i]: the scalar loop (scalar::saxpy) and the
    group-by-group loop with full-width loads and stores (tsimd::saxpy). Both are specified by
    one function on sequences, Combined, whose properties are proved as lemmas. */
module Saxpy {
  import opened Lanes

  /** a * xi + yi, as one element of the combine. */
  function Axpy(a: Float, xi: Float, yi: Float): Float {
    Add(Mul(a, xi), yi)
  }

  /** The buffer o after a*x[k] + y[k] has been written at every index k < len and nothing
      else; len <= 0 writes nothing. */
  function Combined(a: Float, len: int, xs: seq<Float>, ys: seq<Float>, o: seq<Float>): (r: seq<Float>)
    requires len <= |xs| && len <= |ys| && len <= |o|
    ensures |r| == |o|
  {
    seq(|o|, k requires 0 <= k < |o| => if k < len then Axpy(a, xs[k], ys[k]) else o[k])
  }

  /** scalar::saxpy(a, n, x, y, out). The arrays may be the same array: every x[i] and y[i]
      is read before out[i] is written, and no later iteration reads index i again. */
  method ScalarSaxpy(a: Float, n: int, x: array<Float>, y: array<Float>, out: array<Float>)
    requires n <= x.Length && n <= y.Length && n <= out.Length
    modifies out
    ensures out[..] == Combined(a, n, old(x[..]), old(y[..]), old(out[..]))
    ensures out != x ==> x[..] == old(x[..])
    ensures out != y ==> y[..] == old(y[..])
  {
    ghost var xs, ys, o := x[..], y[..], out[..];
    var i := 0;
    while i < n
      invariant 0 <= i && (n >= 0 ==> i <= n) && (n < 0 ==> i == 0)
      invariant out[..] == Combined(a, i, xs, ys, o)
      invariant forall k :: i <= k < x.Length ==> x[k] == xs[k]
      invariant forall k :: i <= k < y.Length ==> y[k] == ys[k]
    {
      var xi := x[i];
      var yi := y[i];
      var result := Add(Mul(a, xi), yi);
      out[i] := result;
      i := i + 1;
    }
    assert Combined(a, i, xs, ys, o) == Combined(a, n, xs, ys, o);
  }

  /** One group: storing the lane-wise a * xi + yi of the group at i extends the combine of
      the first i elements to the first i + N. */
  lemma CombineGroup(a: Float, i: int, xs: seq<Float>, ys: seq<Float>, o: seq<Float>)
    requires 0 <= i && i + N <= |xs| && i + N <= |ys| && i + N <= |o|
    ensures Stored(Combined(a, i, xs, ys, o), i,
                   AddF(MulF(BroadcastF(a), Load(xs, i)), Load(ys, i)))
            == Combined(a, i + N, xs, ys, o)
  {
  }

  /** tsimd::saxpy(a, n, x, y, out): the groups start at 0, N, 2N, ... while below n, and each
      loads x[i..i+N), y[i..i+N) and stores out[i..i+N) in full, so every buffer must hold
      GroupsEnd(n) = ceil(n/N)*N elements. */
  method TsimdSaxpy(a: Float, n: int, x: array<Float>, y: array<Float>, out: array<Float>)
    requires GroupsEnd(n) <= x.Length && GroupsEnd(n) <= y.Length && GroupsEnd(n) <= out.Length
    modifies out
    ensures out[..] == Combined(a, GroupsEnd(n), old(x[..]), old(y[..]), old(out[..]))
    ensures out != x ==> x[..] == old(x[..])
    ensures out != y ==> y[..] == old(y[..])
  {
    ghost var xs, ys, o := x[..], y[..], out[..];
    var i := 0;
    while i < n
      invariant 0 <= i <= GroupsEnd(n) && i % N == 0
      invariant out[..] == Combined(a, i, xs, ys, o)
      invariant forall k :: i <= k < x.Length ==> x[k] == xs[k]
      invariant forall k :: i <= k < y.Length ==> y[k] == ys[k]
    {
      var xi := Load(x[..], i);
      var yi := Load(y[..], i);
      assert xi == Load(xs, i) && yi == Load(ys, i);
      var result := AddF(MulF(BroadcastF(a), xi), yi);
      CombineGroup(a, i, xs, ys, o);
      Store(result, out, i);
      GroupInWalk(n, i);
      NextGroup(i);
      i := i + N;
    }
  }

  // ---------------------------------------------------------------------------------------
  // Properties of the combine

  /** The combine writes no index at or beyond len and sets every index below len to
      a * x[k] + y[k], whatever the buffer held before: the part below len does not depend on
      the old contents of out, and the part from len on is the old contents. */
  lemma CombinedIgnoresOldOut(a: Float, len: int, xs: seq<Float>, ys: seq<Float>,
                              o1: seq<Float>, o2: seq<Float>)
    requires 0 <= len <= |xs| && len <= |ys| && len <= |o1| && |o1| == |o2|
    ensures Combined(a, len, xs, ys, o1)[..len] == Combined(a, len, xs, ys, o2)[..len]
    ensures Combined(a, len, xs, ys, o1)[len..] == o1[len..]
  {
    assert forall k :: 0 <= k < len ==>
      Combined(a, len, xs, ys, o1)[k] == Combined(a, len, xs, ys, o2)[k];
  }

  /** Calling the combine again with the same inputs changes nothing: it is idempotent. */
  lemma CombinedIdempotent(a: Float, len: int, xs: seq<Float>, ys: seq<Float>, o: seq<Float>)
    requires len <= |xs| && len <= |ys| && len <= |o|
    ensures Combined(a, len, xs, ys, Combined(a, len, xs, ys, o)) == Combined(a, len, xs, ys, o)
  {
  }

  /** When n is a whole number of groups, tsimd::saxpy leaves out exactly as scalar::saxpy
      does: the two postconditions name the same buffer. */
  lemma TsimdMatchesScalar(a: Float, n: int, xs: seq<Float>, ys: seq<Float>, o: seq<Float>)
    requires n % N == 0 && GroupsEnd(n) <= |xs| && GroupsEnd(n) <= |ys| && GroupsEnd(n) <= |o|
    ensures n <= |xs| && n <= |ys| && n <= |o|
    ensures Combined(a, GroupsEnd(n), xs, ys, o) == Combined(a, n, xs, ys, o)
  {
    if n > 0 {
      GroupsEndExact(n);
    }
  }

  /** When n is not a whole number of groups, tsimd::saxpy writes past n: the last group also
      sets out[n .. GroupsEnd(n)), which scalar::saxpy leaves alone; so the buffers must be
      GroupsEnd(n) long. */
  lemma TsimdWritesPastN(a: Float, n: int, xs: seq<Float>, ys: seq<Float>, o: seq<Float>)
    requires n > 0 && n % N != 0
    requires GroupsEnd(n) <= |xs| && GroupsEnd(n) <= |ys| && GroupsEnd(n) <= |o|
    ensures n < GroupsEnd(n)
    ensures forall k :: n <= k < GroupsEnd(n) ==>
              Combined(a, GroupsEnd(n), xs, ys, o)[k] == Axpy(a, xs[k], ys[k])
              && Combined(a, n, xs, ys, o)[k] == o[k]
  {
  }
}
