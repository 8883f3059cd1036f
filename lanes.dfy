/** Lane vectors of a fixed width and the operations the tsimd kernels are written against:
    broadcast, lane-wise arithmetic and comparison, select, the none/any reductions, the lane
    index, contiguous load, and unmasked and masked store. A vector is a sequence of exactly
    N lanes. */
module Lanes {

  /** vfloat::static_size: the number of lanes in every vector of one kernel call
      (eight 32-bit lanes of a 256-bit register). */
  const N: nat := 8

  /** A single-precision value, written as the operations that computed it from literals,
      inputs and converted integers. Two values are known to be equal when the same
      operations were applied to the same operands in the same order; nothing else is assumed
      about float arithmetic, so every equation proved holds for IEEE-754 rounding as well as
      for exact arithmetic. A vector operation applies the same scalar operation in every
      lane; for sin, cos and tan this is the assumption that tsimd's versions agree lane by
      lane with the standard library's. */
  datatype Float =
    | Num(value: real)                  // a literal or an input
    | FromInt(n: int)                   // int-to-float conversion
    | Add(a: Float, b: Float)
    | Sub(a: Float, b: Float)
    | Mul(a: Float, b: Float)
    | Div(a: Float, b: Float)
    | Sin(x: Float)
    | Cos(x: Float)
    | Tan(x: Float)

  /** The comparisons of float values the kernels branch on. They are supplied by the caller,
      so the facts proved hold whatever they are: in particular with IEEE-754 semantics, where
      every comparison with NaN is false. */
  datatype FloatOps = FloatOps(
    lt: (Float, Float) -> bool,
    le: (Float, Float) -> bool,
    gt: (Float, Float) -> bool)

  /** The comparisons of values ordered by a real valuation: exact arithmetic, or IEEE-754
      arithmetic on values that are not NaN. */
  function OrderedBy(value: Float -> real): FloatOps {
    FloatOps((p, q) => value(p) < value(q), (p, q) => value(p) <= value(q), (p, q) => value(p) > value(q))
  }

  type VFloat = v: seq<Float> | |v| == N witness seq(N, _ => Num(0.0))
  type VInt = v: seq<int> | |v| == N witness seq(N, _ => 0)
  type VBool = v: seq<bool> | |v| == N witness seq(N, _ => false)

  // ---------------------------------------------------------------------------------------
  // Construction

  /** vfloat(x): every lane holds x. */
  function BroadcastF(x: Float): (r: VFloat)
    ensures forall l :: 0 <= l < N ==> r[l] == x
  {
    seq(N, _ => x)
  }

  /** vint(x): every lane holds x. The same operation as BroadcastF on the other lane type:
      vfloat and vint are distinct vector types in tsimd, and VFloat and VInt are here, so
      each kernel's operands keep their element type without a conversion at every use. */
  function BroadcastI(x: int): (r: VInt)
    ensures forall l :: 0 <= l < N ==> r[l] == x
  {
    seq(N, _ => x)
  }

  /** lane_index<vint>(), and std::iota over a vint from 0: lane l holds l. */
  function LaneIndex(): (r: VInt)
    ensures forall l :: 0 <= l < N ==> r[l] == l
  {
    seq(N, l => l)
  }

  /** The int-to-float conversion applied when a vint meets a float operand. */
  function ToFloat(v: VInt): (r: VFloat)
    ensures forall l :: 0 <= l < N ==> r[l] == FromInt(v[l])
  {
    seq(N, l requires 0 <= l < N => FromInt(v[l]))
  }

  // ---------------------------------------------------------------------------------------
  // Lane-wise arithmetic: no lane sees any other lane.

  function AddF(a: VFloat, b: VFloat): (r: VFloat)
    ensures forall l :: 0 <= l < N ==> r[l] == Add(a[l], b[l])
  {
    seq(N, l requires 0 <= l < N => Add(a[l], b[l]))
  }

  function SubF(a: VFloat, b: VFloat): (r: VFloat)
    ensures forall l :: 0 <= l < N ==> r[l] == Sub(a[l], b[l])
  {
    seq(N, l requires 0 <= l < N => Sub(a[l], b[l]))
  }

  function MulF(a: VFloat, b: VFloat): (r: VFloat)
    ensures forall l :: 0 <= l < N ==> r[l] == Mul(a[l], b[l])
  {
    seq(N, l requires 0 <= l < N => Mul(a[l], b[l]))
  }

  function AddI(a: VInt, b: VInt): (r: VInt)
    ensures forall l :: 0 <= l < N ==> r[l] == a[l] + b[l]
  {
    seq(N, l requires 0 <= l < N => a[l] + b[l])
  }

  /** tsimd::sin, lane by lane. */
  function SinF(v: VFloat): (r: VFloat)
    ensures forall l :: 0 <= l < N ==> r[l] == Sin(v[l])
  {
    seq(N, l requires 0 <= l < N => Sin(v[l]))
  }

  /** tsimd::cos, lane by lane. */
  function CosF(v: VFloat): (r: VFloat)
    ensures forall l :: 0 <= l < N ==> r[l] == Cos(v[l])
  {
    seq(N, l requires 0 <= l < N => Cos(v[l]))
  }

  /** tsimd::tan, lane by lane. */
  function TanF(v: VFloat): (r: VFloat)
    ensures forall l :: 0 <= l < N ==> r[l] == Tan(v[l])
  {
    seq(N, l requires 0 <= l < N => Tan(v[l]))
  }

  // ---------------------------------------------------------------------------------------
  // Lane-wise comparison and mask logic

  function LtF(fp: FloatOps, a: VFloat, b: VFloat): (m: VBool)
    ensures forall l :: 0 <= l < N ==> m[l] == fp.lt(a[l], b[l])
  {
    seq(N, l requires 0 <= l < N => fp.lt(a[l], b[l]))
  }

  function LeF(fp: FloatOps, a: VFloat, b: VFloat): (m: VBool)
    ensures forall l :: 0 <= l < N ==> m[l] == fp.le(a[l], b[l])
  {
    seq(N, l requires 0 <= l < N => fp.le(a[l], b[l]))
  }

  function GtF(fp: FloatOps, a: VFloat, b: VFloat): (m: VBool)
    ensures forall l :: 0 <= l < N ==> m[l] == fp.gt(a[l], b[l])
  {
    seq(N, l requires 0 <= l < N => fp.gt(a[l], b[l]))
  }

  function LtI(a: VInt, b: VInt): (m: VBool)
    ensures forall l :: 0 <= l < N ==> (m[l] <==> a[l] < b[l])
  {
    seq(N, l requires 0 <= l < N => a[l] < b[l])
  }

  function GtI(a: VInt, b: VInt): (m: VBool)
    ensures forall l :: 0 <= l < N ==> (m[l] <==> a[l] > b[l])
  {
    seq(N, l requires 0 <= l < N => a[l] > b[l])
  }

  /** The & of two masks. */
  function And(a: VBool, b: VBool): (m: VBool)
    ensures forall l :: 0 <= l < N ==> (m[l] <==> a[l] && b[l])
  {
    seq(N, l requires 0 <= l < N => a[l] && b[l])
  }

  /** select(m, a, b): lane l comes from a where m holds and from b elsewhere. */
  function Select(m: VBool, a: VInt, b: VInt): (r: VInt)
    ensures forall l :: 0 <= l < N ==> r[l] == (if m[l] then a[l] else b[l])
  {
    seq(N, l requires 0 <= l < N => if m[l] then a[l] else b[l])
  }

  /** none(m): no lane of m is on. */
  predicate None(m: VBool) {
    forall l :: 0 <= l < N ==> !m[l]
  }

  /** any(m): some lane of m is on. */
  predicate Any(m: VBool) {
    exists l :: 0 <= l < N && m[l]
  }

  /** The number of lanes below k that are on in m: the reference count for none and any. */
  function CountOn(m: VBool, k: nat): (c: nat)
    requires k <= N
    ensures c <= k
  {
    if k == 0 then 0 else CountOn(m, k - 1) + (if m[k - 1] then 1 else 0)
  }

  /** No lane below k is counted exactly when no lane below k is on. */
  lemma {:induction false} CountOnZero(m: VBool, k: nat)
    requires k <= N
    ensures CountOn(m, k) == 0 <==> forall l :: 0 <= l < k ==> !m[l]
  {
    if k > 0 {
      CountOnZero(m, k - 1);
    }
  }

  /** none(m) holds exactly when m has no lane on. */
  lemma NoneIffNoneCounted(m: VBool)
    ensures None(m) <==> CountOn(m, N) == 0
  {
    CountOnZero(m, N);
  }

  /** any(m) holds exactly when m has at least one lane on. */
  lemma AnyIffSomeCounted(m: VBool)
    ensures Any(m) <==> CountOn(m, N) > 0
  {
    CountOnZero(m, N);
  }

  // ---------------------------------------------------------------------------------------
  // Memory: buffers are sequences; store methods act on arrays and are specified by the
  // sequence functions Stored and MaskStored.

  /** load<vfloat>(&mem[i]): the N contiguous elements starting at i. */
  function Load(mem: seq<Float>, i: int): (r: VFloat)
    requires 0 <= i && i + N <= |mem|
    ensures forall l :: 0 <= l < N ==> r[l] == mem[i + l]
  {
    mem[i..i + N]
  }

  /** The buffer after an unmasked store of v at i: lanes land at i .. i+N-1. */
  function Stored<T>(mem: seq<T>, i: int, v: seq<T>): (r: seq<T>)
    requires |v| == N
    ensures |r| == |mem|
  {
    seq(|mem|, k requires 0 <= k < |mem| => if i <= k < i + N then v[k - i] else mem[k])
  }

  /** The buffer after a masked store of v at i under m: lane l lands at i+l only where m[l];
      every other element keeps its value. */
  function MaskStored<T>(mem: seq<T>, i: int, v: seq<T>, m: VBool): (r: seq<T>)
    requires |v| == N
    ensures |r| == |mem|
  {
    seq(|mem|, k requires 0 <= k < |mem| => if i <= k < i + N && m[k - i] then v[k - i] else mem[k])
  }

  /** Every lane that a masked store at i under m writes lies inside a buffer of length len.
      Lanes that are off may lie outside: a masked store does not touch them. */
  predicate MaskFits(len: int, i: int, m: VBool) {
    forall l :: 0 <= l < N && m[l] ==> 0 <= i + l < len
  }

  /** store(v, &out[i]) */
  method Store<T>(v: seq<T>, out: array<T>, i: int)
    requires |v| == N && 0 <= i && i + N <= out.Length
    modifies out
    ensures out[..] == Stored(old(out[..]), i, v)
  {
    forall l | 0 <= l < N {
      out[i + l] := v[l];
    }
  }

  /** store(v, &out[i], m) */
  method StoreMasked<T>(v: seq<T>, out: array<T>, i: int, m: VBool)
    requires |v| == N && MaskFits(out.Length, i, m)
    modifies out
    ensures out[..] == MaskStored(old(out[..]), i, v, m)
  {
    forall l | 0 <= l < N && m[l] {
      out[i + l] := v[l];
    }
  }

  /** `if (any(m)) store(v, &out[i], m)`: the any() test in front of a masked store leaves
      the outcome as the masked store alone would. */
  method StoreMaskedIfAny<T>(v: seq<T>, out: array<T>, i: int, m: VBool)
    requires |v| == N && MaskFits(out.Length, i, m)
    modifies out
    ensures out[..] == MaskStored(old(out[..]), i, v, m)
  {
    if Any(m) {
      StoreMasked(v, out, i, m);
    } else {
      NoneIsNotAny(m);
      MaskStoredNoneUnchanged(out[..], i, v, m);
    }
  }

  /** The buffer mem after a walk of masked stores over the positions d in [0, upto) of a run
      that starts at index base: position d, at index base + d, is set to vals[d] where on[d]
      holds; every other element keeps its value. */
  function GroupWrites<T>(mem: seq<T>, base: int, upto: int, on: seq<bool>, vals: seq<T>): (r: seq<T>)
    ensures |r| == |mem|
  {
    seq(|mem|, k requires 0 <= k < |mem| =>
      if 0 <= k - base < upto && k - base < |on| && k - base < |vals| && on[k - base] then vals[k - base] else mem[k])
  }

  /** An index the walk stores at holds the value stored there. */
  lemma GroupWritesAt<T>(mem: seq<T>, base: int, upto: int, on: seq<bool>, vals: seq<T>, d: int)
    requires 0 <= d < upto && d < |on| && d < |vals| && on[d] && 0 <= base + d < |mem|
    ensures GroupWrites(mem, base, upto, on, vals)[base + d] == vals[d]
  {
  }

  /** An index the walk does not store at keeps its value. */
  lemma GroupWritesKeeps<T>(mem: seq<T>, base: int, upto: int, on: seq<bool>, vals: seq<T>, k: int)
    requires 0 <= k < |mem| && !(0 <= k - base < upto && k - base < |on| && on[k - base])
    ensures GroupWrites(mem, base, upto, on, vals)[k] == mem[k]
  {
  }

  /** One more group, with the walk's columns collected as they are computed: a masked store
      at base + i of v under m extends the walk over the first i columns on and vals to the
      walk over on + m and vals + v. */
  lemma GroupWritesAppend<T>(mem: seq<T>, base: int, i: int, on: seq<bool>, vals: seq<T>, v: seq<T>, m: VBool)
    requires 0 <= i && |on| == i && |vals| == i && |v| == N
    ensures MaskStored(GroupWrites(mem, base, i, on, vals), base + i, v, m)
            == GroupWrites(mem, base, i + N, on + m, vals + v)
  {
    var stored := MaskStored(GroupWrites(mem, base, i, on, vals), base + i, v, m);
    var walked := GroupWrites(mem, base, i + N, on + m, vals + v);
    forall k | 0 <= k < |mem|
      ensures stored[k] == walked[k]
    {
      if base + i <= k < base + i + N {
        assert (vals + v)[k - base] == v[k - (base + i)];
        assert (on + m)[k - base] == m[k - (base + i)];
      } else if 0 <= k - base < i {
        assert (vals + v)[k - base] == vals[k - base];
        assert (on + m)[k - base] == on[k - base];
      }
    }
  }

  // ---------------------------------------------------------------------------------------
  // Facts about the primitives

  /** none and any are each other's negation. */
  lemma NoneIsNotAny(m: VBool)
    ensures None(m) <==> !Any(m)
  {
  }

  /** A masked store whose mask has no lane on leaves the buffer as it was; this is why the
      any() test in front of a masked store never changes the outcome. */
  lemma MaskStoredNoneUnchanged<T>(mem: seq<T>, i: int, v: seq<T>, m: VBool)
    requires |v| == N && None(m)
    ensures MaskStored(mem, i, v, m) == mem
  {
  }

  /** A masked store under an all-on mask is the unmasked store. */
  lemma MaskStoredAllOn<T>(mem: seq<T>, i: int, v: seq<T>)
    requires |v| == N
    ensures MaskStored(mem, i, v, seq(N, _ => true)) == Stored(mem, i, v)
  {
  }

  /** A masked store changes exactly the elements of the lanes that are on, and sets them to
      the lanes' values. */
  lemma MaskStoredChanges<T>(mem: seq<T>, i: int, v: seq<T>, m: VBool, k: int)
    requires |v| == N && 0 <= k < |mem|
    ensures MaskStored(mem, i, v, m)[k] != mem[k] ==>
              i <= k < i + N && m[k - i] && MaskStored(mem, i, v, m)[k] == v[k - i]
  {
  }

  // ---------------------------------------------------------------------------------------
  // Groups

  /** The end of the group-by-group walk `for (i = 0; i < n; i += N)`: the least multiple of
      N that is at least n, i.e. ceil(n/N)*N, and 0 when n <= 0. Every group start i lies
      below n, and the last group touches indices up to GroupsEnd(n) - 1. */
  function GroupsEnd(n: int): (e: nat)
    ensures e % N == 0
    ensures n <= 0 ==> e == 0
    ensures n > 0 ==> n <= e < n + N
  {
    if n <= 0 then 0 else ((n + N - 1) / N) * N
  }

  /** GroupsEnd(n) is the least such multiple: a walk that starts at 0, steps by N and stops
      once it reaches n stops exactly at GroupsEnd(n). */
  lemma GroupsEndLeast(n: int, m: int)
    requires 0 <= m && n <= m && m % N == 0
    ensures GroupsEnd(n) <= m
  {
  }

  /** The walk covers exactly n elements when n is a whole number of groups. */
  lemma GroupsEndExact(n: int)
    ensures GroupsEnd(n) == n <==> 0 <= n && n % N == 0
  {
  }

  /** Lane l of the group starting at a multiple i of N is element i + l, and element k
      belongs to the group starting at k - k % N as its lane k % N. */
  lemma LaneOfGroup(i: int, l: int)
    requires i % N == 0 && 0 <= l < N
    ensures (i + l) % N == l && (i + l) - (i + l) % N == i
  {
  }

  /** Element d of the walk over n elements belongs to a group inside the walk. */
  lemma GroupOfElement(n: int, d: int)
    requires 0 <= d < GroupsEnd(n)
    ensures 0 <= d - d % N && (d - d % N) % N == 0 && d - d % N + N <= GroupsEnd(n)
  {
    assert (GroupsEnd(n) - (d - d % N)) % N == 0;
  }

  /** A group that starts below n lies inside the walk. */
  lemma GroupInWalk(n: int, i: int)
    requires 0 <= i < n && i % N == 0
    ensures i + N <= GroupsEnd(n)
  {
    assert (GroupsEnd(n) - i) % N == 0;
  }

  /** The next group of the walk also starts at a multiple of N. */
  lemma NextGroup(i: int)
    requires i % N == 0
    ensures (i + N) % N == 0
  {
  }
}
