/** The escape-time image over a grid: scalar::mandelbrot computes every cell with
    scalar::mandel, and tsimd::mandelbrot walks each row in groups of N columns, runs
    tsimd::mandel on a group and writes the lanes of its mask with a masked store. The mask is
    modelled as written (the lane's x coordinate compared with the width) and as evidently
    intended (the column compared with the width). */
module Mandelbrot {
  import opened Lanes
  import opened Mandel

  /** The arguments of both mandelbrot functions except the output buffer. */
  datatype Grid = Grid(x0: Float, y0: Float, x1: Float, y1: Float, width: int, height: int, maxIters: int)

  /** dx = (x1 - x0) / width. A division by zero is a value like any other, so width 0 needs no special
      case; no cell uses dx then. */
  function Dx(g: Grid): Float {
    Div(Sub(g.x1, g.x0), FromInt(g.width))
  }

  /** dy = (y1 - y0) / height. */
  function Dy(g: Grid): Float {
    Div(Sub(g.y1, g.y0), FromInt(g.height))
  }

  /** The x coordinate of column col: x0 + col * dx. */
  function ColX(g: Grid, col: int): Float {
    Add(g.x0, Mul(FromInt(col), Dx(g)))
  }

  /** The y coordinate of row row: y0 + row * dy. */
  function RowY(g: Grid, row: int): Float {
    Add(g.y0, Mul(FromInt(row), Dy(g)))
  }

  /** The point of the cell in row row and column col. */
  function CellC(g: Grid, row: int, col: int): Complex {
    Complex(ColX(g, col), RowY(g, row))
  }

  /** The buffer index of the first cell of row j: j * w, built up by repeated addition so
      that the proofs about indices stay linear (RowStartIsProduct ties it to j * w). */
  function RowStart(w: int, j: nat): int {
    if j == 0 then 0 else RowStart(w, j - 1) + w
  }

  lemma {:induction false} RowStartIsProduct(w: int, j: nat)
    ensures RowStart(w, j) == j * w
  {
    if j > 0 {
      RowStartIsProduct(w, j - 1);
      assert j * w == (j - 1) * w + w;
    }
  }

  /** With w >= 0, later rows start no earlier. */
  lemma {:induction false} RowStartMonotone(w: int, j: nat, j': nat)
    requires w >= 0 && j <= j'
    ensures RowStart(w, j) <= RowStart(w, j')
    decreases j' - j
  {
    if j < j' {
      RowStartMonotone(w, j, j' - 1);
    }
  }

  // ---------------------------------------------------------------------------------------
  // Scalar kernel

  /** The number of cells scalar::mandelbrot writes. */
  function CellCount(g: Grid): (r: nat)
    ensures g.width > 0 && g.height > 0 ==> r == g.width * g.height
    ensures g.width <= 0 || g.height <= 0 ==> r == 0
  {
    if g.width > 0 && g.height > 0 then g.width * g.height else 0
  }

  /** The buffer mem after cells 0 .. upto-1 of row j have been set to the escape time of
      their point. */
  function ScalarRowPart(fp: FloatOps, g: Grid, mem: seq<int>, j: nat, upto: int): (r: seq<int>)
    ensures |r| == |mem|
  {
    seq(|mem|, k requires 0 <= k < |mem| =>
      var d := k - RowStart(g.width, j);
      if 0 <= d < upto then EscapeTime(fp, CellC(g, j, d), g.maxIters) else mem[k])
  }

  /** The buffer mem after the inner loop of scalar::mandelbrot has stored cells 0 .. upto-1
      of row j one after another, cell i at RowStart(width, j) + i (an index outside mem
      is skipped; the kernel's precondition rules that out). */
  function ScalarRowWalk(fp: FloatOps, g: Grid, mem: seq<int>, j: nat, upto: int): (r: seq<int>)
    ensures |r| == |mem|
    decreases upto
  {
    if upto <= 0 then mem
    else
      var s := ScalarRowWalk(fp, g, mem, j, upto - 1);
      var k := RowStart(g.width, j) + (upto - 1);
      if 0 <= k < |s| then s[k := EscapeTime(fp, CellC(g, j, upto - 1), g.maxIters)] else s
  }

  /** The buffer mem after the first j rows. */
  function ScalarRows(fp: FloatOps, g: Grid, mem: seq<int>, j: nat): (r: seq<int>)
    ensures |r| == |mem|
  {
    if j == 0 then mem else ScalarRowPart(fp, g, ScalarRows(fp, g, mem, j - 1), j - 1, g.width)
  }

  /** What scalar::mandelbrot leaves in the buffer. */
  function ScalarImage(fp: FloatOps, g: Grid, mem: seq<int>): (r: seq<int>)
    ensures |r| == |mem|
  {
    ScalarRows(fp, g, mem, if g.height > 0 then g.height else 0)
  }

  /** The index j * width + i of cell (j, i) is RowStart(width, j) + i and lies below the
      number of cells. */
  lemma CellIndexInGrid(g: Grid, j: nat, i: int)
    requires j < g.height && 0 <= i < g.width
    ensures 0 <= RowStart(g.width, j) + i < CellCount(g)
  {
    RowStartIsProduct(g.width, j);
    RowStartIsProduct(g.width, g.height);
    RowStartMonotone(g.width, j + 1, g.height);
  }

  /** The last row ends where the grid's cells end. */
  lemma GridEnd(g: Grid)
    requires g.width > 0 && g.height > 0
    ensures RowStart(g.width, g.height - 1) + g.width == CellCount(g)
  {
    RowStartIsProduct(g.width, g.height);
  }

  /** Writing the escape time of cell (j, i) at its index extends row j from the first i
      cells to the first i + 1. */
  lemma ScalarCellStep(fp: FloatOps, g: Grid, mem: seq<int>, j: nat, i: int)
    requires 0 <= i && 0 <= RowStart(g.width, j) + i < |mem|
    ensures ScalarRowPart(fp, g, mem, j, i)[RowStart(g.width, j) + i := EscapeTime(fp, CellC(g, j, i), g.maxIters)]
            == ScalarRowPart(fp, g, mem, j, i + 1)
  {
  }

  /** The walk over row j stores exactly the cells below upto, each at its index:
      ScalarRowPart is its closed form. */
  lemma {:induction false} ScalarRowWalkIsPart(fp: FloatOps, g: Grid, mem: seq<int>, j: nat, upto: int)
    ensures ScalarRowWalk(fp, g, mem, j, upto) == ScalarRowPart(fp, g, mem, j, upto)
    decreases upto
  {
    if upto <= 0 {
      assert ScalarRowPart(fp, g, mem, j, upto) == mem;
    } else {
      ScalarRowWalkIsPart(fp, g, mem, j, upto - 1);
      if 0 <= RowStart(g.width, j) + (upto - 1) < |mem| {
        ScalarCellStep(fp, g, mem, j, upto - 1);
      } else {
        assert ScalarRowPart(fp, g, mem, j, upto - 1) == ScalarRowPart(fp, g, mem, j, upto);
      }
    }
  }

  /** scalar::mandelbrot(x0, y0, x1, y1, width, height, maxIterations, output) */
  method ScalarMandelbrot(fp: FloatOps, g: Grid, output: array<int>)
    requires CellCount(g) <= output.Length
    modifies output
    ensures output[..] == ScalarImage(fp, g, old(output[..]))
  {
    ghost var mem := output[..];
    var dx := Div(Sub(g.x1, g.x0), FromInt(g.width));
    var dy := Div(Sub(g.y1, g.y0), FromInt(g.height));
    var j := 0;
    while j < g.height
      invariant 0 <= j && (g.height >= 0 ==> j <= g.height) && (g.height < 0 ==> j == 0)
      invariant output[..] == ScalarRows(fp, g, mem, j)
    {
      ghost var before := output[..];
      var i := 0;
      while i < g.width
        invariant 0 <= i && (g.width >= 0 ==> i <= g.width) && (g.width < 0 ==> i == 0)
        invariant output[..] == ScalarRowWalk(fp, g, before, j, i)
      {
        var x := Add(g.x0, Mul(FromInt(i), dx));
        var y := Add(g.y0, Mul(FromInt(j), dy));
        var index := RowStart(g.width, j) + i;
        CellIndexInGrid(g, j, i);
        var v := ScalarMandel(fp, x, y, g.maxIters);
        output[index] := v;
        i := i + 1;
      }
      ScalarRowWalkIsPart(fp, g, before, j, i);
      assert ScalarRowPart(fp, g, before, j, i) == ScalarRowPart(fp, g, before, j, g.width);
      j := j + 1;
    }
  }

  /** Every cell (j, i) of the grid ends up holding the escape time of its point,
      scalar::mandel(x0 + i*dx, y0 + j*dy, maxIterations), at index j * width + i. */
  lemma ScalarImageCell(fp: FloatOps, g: Grid, mem: seq<int>, j: nat, i: int)
    requires j < g.height && 0 <= i < g.width && CellCount(g) <= |mem|
    ensures 0 <= j * g.width + i < |mem|
    ensures ScalarImage(fp, g, mem)[j * g.width + i] == EscapeTime(fp, CellC(g, j, i), g.maxIters)
  {
    RowStartIsProduct(g.width, j);
    RowStartIsProduct(g.width, g.height);
    RowStartMonotone(g.width, j + 1, g.height);
    ScalarRowsKeep(fp, g, mem, j + 1, g.height, RowStart(g.width, j) + i);
  }

  /** Rows from j on write only indices from RowStart(width, j) on. */
  lemma {:induction false} ScalarRowsKeep(fp: FloatOps, g: Grid, mem: seq<int>, j: nat, j': nat, k: int)
    requires g.width >= 0 && j <= j' && 0 <= k < |mem| && k < RowStart(g.width, j)
    ensures ScalarRows(fp, g, mem, j')[k] == ScalarRows(fp, g, mem, j)[k]
    decreases j' - j
  {
    if j < j' {
      ScalarRowsKeep(fp, g, mem, j, j' - 1, k);
      RowStartMonotone(g.width, j, j' - 1);
    }
  }

  /** scalar::mandelbrot writes no index at or beyond width * height. */
  lemma ScalarImageKeepsRest(fp: FloatOps, g: Grid, mem: seq<int>, k: int)
    requires CellCount(g) <= k < |mem|
    ensures ScalarImage(fp, g, mem)[k] == mem[k]
  {
    if g.height > 0 && g.width > 0 {
      RowStartIsProduct(g.width, g.height);
      ScalarRowsBelow(fp, g, mem, g.height, k);
    } else if g.height > 0 {
      ScalarRowsBelow(fp, g, mem, g.height, k);
    }
  }

  /** The first j rows write only indices below RowStart(width, j) (none when width <= 0). */
  lemma {:induction false} ScalarRowsBelow(fp: FloatOps, g: Grid, mem: seq<int>, j: nat, k: int)
    requires 0 <= k < |mem| && (g.width > 0 ==> RowStart(g.width, j) <= k)
    ensures ScalarRows(fp, g, mem, j)[k] == mem[k]
  {
    if j > 0 {
      if g.width > 0 {
        RowStartMonotone(g.width, j - 1, j);
      }
      ScalarRowsBelow(fp, g, mem, j - 1, k);
    }
  }

  // ---------------------------------------------------------------------------------------
  // Vector kernel

  /** The condition of the store mask for column col. AsWritten is the test at
      mandelbrot.cpp:172, x < width, on the column's x coordinate. InBounds is the evidently
      intended col < width. */
  datatype Guard = AsWritten | InBounds

  predicate ColActive(fp: FloatOps, guard: Guard, g: Grid, col: int) {
    match guard
    case AsWritten => fp.lt(ColX(g, col), FromInt(g.width))
    case InBounds => col < g.width
  }

  /** The x coordinates of the group starting at column i, one per lane. */
  function XLanes(g: Grid, i: int): (r: VFloat)
    ensures forall l :: 0 <= l < N ==> r[l] == ColX(g, i + l)
  {
    var r := seq(N, l requires 0 <= l < N => ColX(g, i + l));
    assert |r| == N;
    r
  }

  /** The store mask of the group starting at column i, one lane per column. */
  function ActiveMask(fp: FloatOps, guard: Guard, g: Grid, i: int): (m: VBool)
    ensures forall l :: 0 <= l < N ==> m[l] == ColActive(fp, guard, g, i + l)
  {
    seq(N, l => ColActive(fp, guard, g, i + l))
  }

  /** The kernel's x0 + (i + laneIndex) * dx, with laneIndex = iota, is XLanes. */
  lemma XLanesComputed(g: Grid, i: int)
    ensures AddF(BroadcastF(g.x0), MulF(ToFloat(AddI(BroadcastI(i), LaneIndex())), BroadcastF(Dx(g))))
            == XLanes(g, i)
  {
  }

  /** The kernel's mask, x < width (AsWritten) or i + laneIndex < width (InBounds), is
      ActiveMask. */
  lemma ActiveMaskComputed(fp: FloatOps, guard: Guard, g: Grid, i: int)
    ensures guard == AsWritten ==> LtF(fp, XLanes(g, i), BroadcastF(FromInt(g.width))) == ActiveMask(fp, guard, g, i)
    ensures guard == InBounds ==> LtI(AddI(BroadcastI(i), LaneIndex()), BroadcastI(g.width)) == ActiveMask(fp, guard, g, i)
  {
  }

  /** tsimd::mandel on the group of row j starting at column i. */
  function GroupResult(fp: FloatOps, guard: Guard, g: Grid, j: int, i: int): VInt {
    MandelLanes(fp, ActiveMask(fp, guard, g, i), XLanes(g, i), BroadcastF(RowY(g, j)), g.maxIters)
  }

  /** The value the vector kernel computes for column d of row j: lane d % N of the group
      starting at d - d % N. */
  function RowCell(fp: FloatOps, guard: Guard, g: Grid, j: int, d: int): int {
    GroupResult(fp, guard, g, j, d - d % N)[d % N]
  }

  /** The store mask of every column of the walk over a row. */
  function RowMask(fp: FloatOps, guard: Guard, g: Grid): (r: seq<bool>)
    ensures |r| == GroupsEnd(g.width)
    ensures forall d :: 0 <= d < |r| ==> r[d] == ColActive(fp, guard, g, d)
  {
    seq(GroupsEnd(g.width), d => ColActive(fp, guard, g, d))
  }

  /** The values of the first n columns of the walk over row j. */
  function RowValsUpTo(fp: FloatOps, guard: Guard, g: Grid, j: int, n: nat): (r: seq<int>)
    ensures |r| == n
  {
    if n == 0 then [] else RowValsUpTo(fp, guard, g, j, n - 1) + [RowCell(fp, guard, g, j, n - 1)]
  }

  /** Column d of the first n columns of row j is RowCell(j, d). */
  lemma {:induction false} RowValsUpToAt(fp: FloatOps, guard: Guard, g: Grid, j: int, n: nat, d: int)
    requires 0 <= d < n
    ensures RowValsUpTo(fp, guard, g, j, n)[d] == RowCell(fp, guard, g, j, d)
  {
    if d < n - 1 {
      RowValsUpToAt(fp, guard, g, j, n - 1, d);
    }
  }

  /** The value of every column of the walk over row j. */
  function RowVals(fp: FloatOps, guard: Guard, g: Grid, j: int): (r: seq<int>)
    ensures |r| == GroupsEnd(g.width)
  {
    RowValsUpTo(fp, guard, g, j, GroupsEnd(g.width))
  }

  /** Column d of the walk over row j holds RowCell(j, d). */
  lemma RowValsAt(fp: FloatOps, guard: Guard, g: Grid, j: int, d: int)
    requires 0 <= d < GroupsEnd(g.width)
    ensures RowVals(fp, guard, g, j)[d] == RowCell(fp, guard, g, j, d)
  {
    RowValsUpToAt(fp, guard, g, j, GroupsEnd(g.width), d);
  }

  /** The buffer mem after the groups of row j that start below upto (a multiple of N) have
      been stored: index RowStart(width, j) + d is set for each column d below upto whose
      mask lane is on, and nothing else changes. Columns from width on belong to row j's last
      group, so they land in row j + 1's cells, or past the grid on the last row. */
  function RowPart(fp: FloatOps, guard: Guard, g: Grid, mem: seq<int>, j: nat, upto: int): (r: seq<int>)
    requires upto <= GroupsEnd(g.width)
    ensures |r| == |mem|
  {
    GroupWrites(mem, RowStart(g.width, j), upto, RowMask(fp, guard, g), RowVals(fp, guard, g, j))
  }

  /** The buffer mem after the first j rows, in order: a later row overwrites what an earlier
      row's last group stored in its cells. */
  function Rows(fp: FloatOps, guard: Guard, g: Grid, mem: seq<int>, j: nat): (r: seq<int>)
    ensures |r| == |mem|
  {
    if j == 0 then mem
    else RowPart(fp, guard, g, Rows(fp, guard, g, mem, j - 1), j - 1, GroupsEnd(g.width))
  }

  /** What tsimd::mandelbrot leaves in the buffer. */
  function TsimdImage(fp: FloatOps, guard: Guard, g: Grid, mem: seq<int>): (r: seq<int>)
    ensures |r| == |mem|
  {
    Rows(fp, guard, g, mem, if g.height > 0 then g.height else 0)
  }

  /** Column d of row j, when the vector kernel stores it, lands inside a buffer of length
      len. */
  predicate StoreFits(fp: FloatOps, guard: Guard, g: Grid, len: int, j: nat, d: int) {
    j < g.height && 0 <= d < GroupsEnd(g.width) && ColActive(fp, guard, g, d) ==>
      0 <= RowStart(g.width, j) + d < len
  }

  /** Every index the vector kernel stores at lies inside a buffer of length len: for each
      row and every column of the walk whose mask lane is on. */
  ghost predicate MandelStoresFit(fp: FloatOps, guard: Guard, g: Grid, len: int) {
    forall j: nat, d :: StoreFits(fp, guard, g, len, j, d)
  }

  /** Lane l of the group of row j starting at column i holds column i + l: its result and
      its mask lane are those of the row walk. */
  lemma GroupLanes(fp: FloatOps, guard: Guard, g: Grid, j: nat, i: int)
    requires 0 <= i && i % N == 0 && i + N <= GroupsEnd(g.width)
    ensures forall l :: 0 <= l < N ==>
              GroupResult(fp, guard, g, j, i)[l] == RowVals(fp, guard, g, j)[i + l]
              && ActiveMask(fp, guard, g, i)[l] == RowMask(fp, guard, g)[i + l]
  {
    forall l | 0 <= l < N
      ensures GroupResult(fp, guard, g, j, i)[l] == RowVals(fp, guard, g, j)[i + l]
    {
      CellOfGroup(fp, guard, g, j, i, l);
    }
  }

  /** Column i + l of row j is lane l of the group starting at column i. */
  lemma CellOfGroup(fp: FloatOps, guard: Guard, g: Grid, j: nat, i: int, l: int)
    requires 0 <= i && i % N == 0 && 0 <= l < N && i + N <= GroupsEnd(g.width)
    ensures RowVals(fp, guard, g, j)[i + l] == GroupResult(fp, guard, g, j, i)[l]
  {
    LaneOfGroup(i, l);
    RowValsAt(fp, guard, g, j, i + l);
  }

  /** Lane l of v and m is column i + l of the walk over row j. */
  predicate LaneIsColumn(fp: FloatOps, guard: Guard, g: Grid, j: int, i: int, v: VInt, m: VBool, l: int)
    requires 0 <= i && i + N <= GroupsEnd(g.width) && 0 <= l < N
  {
    v[l] == RowVals(fp, guard, g, j)[i + l] && m[l] == RowMask(fp, guard, g)[i + l]
  }

  /** v and m are the lanes and the mask of the group of row j starting at column i of the
      row walk. */
  predicate IsRowGroup(fp: FloatOps, guard: Guard, g: Grid, j: int, i: int, v: VInt, m: VBool) {
    0 <= i && i % N == 0 && i + N <= GroupsEnd(g.width) &&
    forall l :: 0 <= l < N ==> LaneIsColumn(fp, guard, g, j, i, v, m, l)
  }

  /** Column c of vs and ms is column c of the walk over row j. */
  predicate ColumnOfRow(fp: FloatOps, guard: Guard, g: Grid, j: int, vs: seq<int>, ms: seq<bool>, c: int)
    requires 0 <= c < |vs| && c < |ms|
  {
    c < GroupsEnd(g.width) && vs[c] == RowVals(fp, guard, g, j)[c] && ms[c] == RowMask(fp, guard, g)[c]
  }

  /** vs and ms are the values and the mask of the first |vs| columns of the walk over row j. */
  predicate IsRowPrefix(fp: FloatOps, guard: Guard, g: Grid, j: int, vs: seq<int>, ms: seq<bool>) {
    |vs| == |ms| && |vs| <= GroupsEnd(g.width) &&
    forall c :: 0 <= c < |vs| ==> ColumnOfRow(fp, guard, g, j, vs, ms, c)
  }

  /** Appending the group that starts right after a prefix of the row walk gives a longer
      prefix. */
  lemma PrefixGrows(fp: FloatOps, guard: Guard, g: Grid, j: int, vs: seq<int>, ms: seq<bool>, v: VInt, m: VBool)
    requires IsRowPrefix(fp, guard, g, j, vs, ms) && IsRowGroup(fp, guard, g, j, |vs|, v, m)
    ensures IsRowPrefix(fp, guard, g, j, vs + v, ms + m)
  {
    forall c | 0 <= c < |vs + v|
      ensures ColumnOfRow(fp, guard, g, j, vs + v, ms + m, c)
    {
      if c < |vs| {
        assert ColumnOfRow(fp, guard, g, j, vs, ms, c);
      } else {
        assert LaneIsColumn(fp, guard, g, j, |vs|, v, m, c - |vs|);
      }
    }
  }

  /** A prefix as long as the whole walk is the walk. */
  lemma PrefixWhole(fp: FloatOps, guard: Guard, g: Grid, j: int, vs: seq<int>, ms: seq<bool>)
    requires IsRowPrefix(fp, guard, g, j, vs, ms) && |vs| == GroupsEnd(g.width)
    ensures vs == RowVals(fp, guard, g, j) && ms == RowMask(fp, guard, g)
  {
    forall c | 0 <= c < |vs|
      ensures vs[c] == RowVals(fp, guard, g, j)[c] && ms[c] == RowMask(fp, guard, g)[c]
    {
      assert ColumnOfRow(fp, guard, g, j, vs, ms, c);
    }
  }

  /** Under MandelStoresFit the masked store of a group of row j stays inside the buffer. */
  lemma GroupFits(fp: FloatOps, guard: Guard, g: Grid, len: int, j: nat, i: int, v: VInt, m: VBool)
    requires MandelStoresFit(fp, guard, g, len) && j < g.height && IsRowGroup(fp, guard, g, j, i, v, m)
    ensures MaskFits(len, RowStart(g.width, j) + i, m)
  {
    forall l | 0 <= l < N && m[l]
      ensures 0 <= RowStart(g.width, j) + i + l < len
    {
      assert LaneIsColumn(fp, guard, g, j, i, v, m, l);
      assert StoreFits(fp, guard, g, len, j, i + l);
    }
  }

  /** The body of the inner loop of tsimd::mandelbrot up to the store: the x and y
      coordinates of the group of row j starting at column i, its mask, and tsimd::mandel on
      them. */
  method MandelGroup(fp: FloatOps, guard: Guard, g: Grid, dx: Float, dy: Float, laneIndex: VInt, j: nat, i: int)
    returns (result: VInt, active: VBool)
    requires dx == Dx(g) && dy == Dy(g) && laneIndex == LaneIndex()
    requires 0 <= i && i % N == 0 && i + N <= GroupsEnd(g.width)
    ensures IsRowGroup(fp, guard, g, j, i, result, active)
  {
    var x := AddF(BroadcastF(g.x0), MulF(ToFloat(AddI(BroadcastI(i), laneIndex)), BroadcastF(dx)));
    var y := BroadcastF(Add(g.y0, Mul(FromInt(j), dy)));
    active := if guard == AsWritten then LtF(fp, x, BroadcastF(FromInt(g.width)))
              else LtI(AddI(BroadcastI(i), laneIndex), BroadcastI(g.width));
    XLanesComputed(g, i);
    ActiveMaskComputed(fp, guard, g, i);
    assert y == BroadcastF(RowY(g, j));
    result := TsimdMandel(fp, active, x, y, g.maxIters);
    GroupLanes(fp, guard, g, j, i);
  }

  /** The inner loop of tsimd::mandelbrot over the groups of row j: each group's result is
      stored under its mask at j * width + i. The values vs and mask ms of the walk over the
      row are collected as the groups are computed; PrefixWhole says they are RowVals and
      RowMask, so the new buffer is RowPart(old buffer, j, GroupsEnd(width)). */
  method MandelRow(fp: FloatOps, guard: Guard, g: Grid, dx: Float, dy: Float, laneIndex: VInt,
                   j: nat, output: array<int>)
    returns (ghost vs: seq<int>, ghost ms: seq<bool>)
    requires dx == Dx(g) && dy == Dy(g) && laneIndex == LaneIndex()
    requires MandelStoresFit(fp, guard, g, output.Length) && j < g.height
    modifies output
    ensures |vs| == GroupsEnd(g.width) && IsRowPrefix(fp, guard, g, j, vs, ms)
    ensures output[..] == GroupWrites(old(output[..]), RowStart(g.width, j), GroupsEnd(g.width), ms, vs)
  {
    ghost var before := output[..];
    vs, ms := [], [];
    var i := 0;
    while i < g.width
      invariant 0 <= i <= GroupsEnd(g.width) && i % N == 0
      invariant |vs| == i && IsRowPrefix(fp, guard, g, j, vs, ms)
      invariant output[..] == GroupWrites(before, RowStart(g.width, j), i, ms, vs)
    {
      GroupInWalk(g.width, i);
      var result, active := MandelGroup(fp, guard, g, dx, dy, laneIndex, j, i);
      var index := RowStart(g.width, j) + i;
      GroupFits(fp, guard, g, output.Length, j, i, result, active);
      GroupWritesAppend(before, RowStart(g.width, j), i, ms, vs, result, active);
      PrefixGrows(fp, guard, g, j, vs, ms, result, active);
      StoreMasked(result, output, index, active);
      vs, ms := vs + result, ms + active;
      NextGroup(i);
      i := i + N;
    }
    GroupsEndLeast(g.width, i);
  }

  /** The buffer mem after the row walks with the values vss[r] and masks mss[r] have been
      stored in order, row r from RowStart(w, r) on. */
  function RowsWith(mem: seq<int>, w: int, vss: seq<seq<int>>, mss: seq<seq<bool>>): (r: seq<int>)
    requires |vss| == |mss|
    ensures |r| == |mem|
    decreases |vss|
  {
    if |vss| == 0 then mem
    else
      var n := |vss| - 1;
      GroupWrites(RowsWith(mem, w, vss[..n], mss[..n]), RowStart(w, n), GroupsEnd(w), mss[n], vss[n])
  }

  /** One more row walk on top of the earlier ones. */
  lemma RowsWithAppend(mem: seq<int>, w: int, vss: seq<seq<int>>, mss: seq<seq<bool>>, vs: seq<int>, ms: seq<bool>)
    requires |vss| == |mss|
    ensures RowsWith(mem, w, vss + [vs], mss + [ms])
            == GroupWrites(RowsWith(mem, w, vss, mss), RowStart(w, |vss|), GroupsEnd(w), ms, vs)
  {
    assert (vss + [vs])[..|vss|] == vss;
    assert (mss + [ms])[..|mss|] == mss;
  }

  /** Row walks whose values and masks are those of rows 0, 1, ... leave the buffer as Rows. */
  lemma {:induction false} RowsWithIsRows(fp: FloatOps, guard: Guard, g: Grid, mem: seq<int>,
                                          vss: seq<seq<int>>, mss: seq<seq<bool>>)
    requires |vss| == |mss|
    requires forall r :: 0 <= r < |vss| ==> |vss[r]| == GroupsEnd(g.width) && IsRowPrefix(fp, guard, g, r, vss[r], mss[r])
    ensures RowsWith(mem, g.width, vss, mss) == Rows(fp, guard, g, mem, |vss|)
    decreases |vss|
  {
    if |vss| > 0 {
      var n := |vss| - 1;
      RowsWithIsRows(fp, guard, g, mem, vss[..n], mss[..n]);
      PrefixWhole(fp, guard, g, n, vss[n], mss[n]);
    }
  }

  /** The outer loop of tsimd::mandelbrot: row j is walked by MandelRow, for j from 0 up
      to height; vss and mss collect the rows' values and masks. */
  method MandelRows(fp: FloatOps, guard: Guard, g: Grid, dx: Float, dy: Float, laneIndex: VInt, output: array<int>)
    returns (ghost vss: seq<seq<int>>, ghost mss: seq<seq<bool>>)
    requires dx == Dx(g) && dy == Dy(g) && laneIndex == LaneIndex()
    requires MandelStoresFit(fp, guard, g, output.Length)
    modifies output
    ensures |vss| == (if g.height > 0 then g.height else 0) && |mss| == |vss|
    ensures forall r :: 0 <= r < |vss| ==> |vss[r]| == GroupsEnd(g.width) && IsRowPrefix(fp, guard, g, r, vss[r], mss[r])
    ensures output[..] == RowsWith(old(output[..]), g.width, vss, mss)
  {
    ghost var mem := output[..];
    vss, mss := [], [];
    var j := 0;
    while j < g.height
      invariant 0 <= j && (g.height >= 0 ==> j <= g.height) && (g.height < 0 ==> j == 0)
      invariant |vss| == j && |mss| == j
      invariant forall r :: 0 <= r < j ==> |vss[r]| == GroupsEnd(g.width) && IsRowPrefix(fp, guard, g, r, vss[r], mss[r])
      invariant output[..] == RowsWith(mem, g.width, vss, mss)
    {
      ghost var vs, ms := MandelRow(fp, guard, g, dx, dy, laneIndex, j, output);
      RowsWithAppend(mem, g.width, vss, mss, vs, ms);
      vss, mss := vss + [vs], mss + [ms];
      j := j + 1;
    }
  }

  /** tsimd::mandelbrot(x0, y0, x1, y1, width, height, maxIters, output), with the store mask
      chosen by guard: AsWritten gives the kernel as it stands. */
  method TsimdMandelbrot(fp: FloatOps, guard: Guard, g: Grid, output: array<int>)
    requires MandelStoresFit(fp, guard, g, output.Length)
    modifies output
    ensures output[..] == TsimdImage(fp, guard, g, old(output[..]))
  {
    var dx := Div(Sub(g.x1, g.x0), FromInt(g.width));
    var dy := Div(Sub(g.y1, g.y0), FromInt(g.height));
    var laneIndex := LaneIndex();
    ghost var vss, mss := MandelRows(fp, guard, g, dx, dy, laneIndex, output);
    RowsWithIsRows(fp, guard, g, old(output[..]), vss, mss);
  }

  // ---------------------------------------------------------------------------------------
  // What the vector kernel stores, and how it compares with the scalar kernel

  /** Row j's walk does not store at index k: k - RowStart(width, j) is not a column of the
      walk whose mask lane is on. */
  predicate RowSkips(fp: FloatOps, guard: Guard, g: Grid, j: nat, k: int) {
    var d := k - RowStart(g.width, j);
    !(0 <= d < GroupsEnd(g.width) && ColActive(fp, guard, g, d))
  }

  /** tsimd::mandelbrot changes an index only where it stores: index k keeps its old value
      when no row's walk stores at it. */
  lemma TsimdImageUntouched(fp: FloatOps, guard: Guard, g: Grid, mem: seq<int>, k: int)
    requires 0 <= k < |mem|
    requires forall j: nat :: j < g.height ==> RowSkips(fp, guard, g, j, k)
    ensures TsimdImage(fp, guard, g, mem)[k] == mem[k]
  {
    var h := if g.height > 0 then g.height else 0;
    var vss := seq(h, r => RowVals(fp, guard, g, r));
    var mss := seq(h, r => RowMask(fp, guard, g));
    forall r | 0 <= r < h
      ensures IsRowPrefix(fp, guard, g, r, vss[r], mss[r]) && WalkSkips(g.width, r, mss[r], k)
    {
      assert RowSkips(fp, guard, g, r, k);
    }
    RowsWithIsRows(fp, guard, g, mem, vss, mss);
    RowsWithKeeps(mem, g.width, vss, mss, k);
  }

  /** A walk over row r with mask ms does not store at index k. */
  predicate WalkSkips(w: int, r: nat, ms: seq<bool>, k: int) {
    var d := k - RowStart(w, r);
    !(0 <= d < GroupsEnd(w) && d < |ms| && ms[d])
  }

  /** Row walks none of which stores at index k leave it alone. */
  lemma {:induction false} RowsWithKeeps(mem: seq<int>, w: int, vss: seq<seq<int>>, mss: seq<seq<bool>>, k: int)
    requires |vss| == |mss| && 0 <= k < |mem|
    requires forall r :: 0 <= r < |mss| ==> WalkSkips(w, r, mss[r], k)
    ensures RowsWith(mem, w, vss, mss)[k] == mem[k]
    decreases |vss|
  {
    if |vss| > 0 {
      var n := |vss| - 1;
      assert WalkSkips(w, n, mss[n], k);
      RowsWithKeeps(mem, w, vss[..n], mss[..n], k);
      GroupWritesKeeps(RowsWith(mem, w, vss[..n], mss[..n]), RowStart(w, n), GroupsEnd(w), mss[n], vss[n], k);
    }
  }

  /** With width <= 0 or height <= 0 neither kernel writes anything. */
  lemma EmptyGridWritesNothing(fp: FloatOps, guard: Guard, g: Grid, mem: seq<int>)
    requires g.width <= 0 || g.height <= 0
    ensures TsimdImage(fp, guard, g, mem) == mem
    ensures ScalarImage(fp, g, mem) == mem
  {
    forall k | 0 <= k < |mem|
      ensures TsimdImage(fp, guard, g, mem)[k] == mem[k] && ScalarImage(fp, g, mem)[k] == mem[k]
    {
      TsimdImageUntouched(fp, guard, g, mem, k);
      ScalarImageKeepsRest(fp, g, mem, k);
    }
  }

  /** The hypotheses under which one lane of tsimd::mandel agrees with scalar::mandel, for
      the point of cell (j, d). */
  ghost predicate CellAgrees(fp: FloatOps, g: Grid, j: int, d: int) {
    ComparesConsistently(fp, CellC(g, j, d), g.maxIters) && StaysEscaped(fp, CellC(g, j, d), g.maxIters)
  }

  /** With the column guard, the vector kernel computes for cell (j, d) of the grid the
      escape time scalar::mandel computes for it. */
  lemma InBoundsCell(fp: FloatOps, g: Grid, j: int, d: int)
    requires 0 <= d < g.width && CellAgrees(fp, g, j, d)
    ensures RowCell(fp, InBounds, g, j, d) == EscapeTime(fp, CellC(g, j, d), g.maxIters)
  {
    var i, l := d - d % N, d % N;
    var c_re, c_im := XLanes(g, i), BroadcastF(RowY(g, j));
    assert LanePoint(c_re, c_im, l) == CellC(g, j, d);
    LaneMatchesScalar(fp, ActiveMask(fp, InBounds, g, i), c_re, c_im, g.maxIters, l);
  }

  /** vs and ms, as the values and the mask of a walk over row j, store exactly the cells of
      row j, each with scalar::mandel's escape time. */
  ghost predicate ScalarWalk(fp: FloatOps, g: Grid, j: int, vs: seq<int>, ms: seq<bool>) {
    |vs| == GroupsEnd(g.width) && |ms| == GroupsEnd(g.width) &&
    forall d :: 0 <= d < |ms| ==>
      (ms[d] <==> d < g.width) && (d < g.width ==> vs[d] == EscapeTime(fp, CellC(g, j, d), g.maxIters))
  }

  /** With the column guard, the walk over row j is such a walk. */
  lemma InBoundsWalk(fp: FloatOps, g: Grid, j: int)
    requires forall d :: 0 <= d < g.width ==> CellAgrees(fp, g, j, d)
    ensures ScalarWalk(fp, g, j, RowVals(fp, InBounds, g, j), RowMask(fp, InBounds, g))
  {
    forall d | 0 <= d < g.width
      ensures RowVals(fp, InBounds, g, j)[d] == EscapeTime(fp, CellC(g, j, d), g.maxIters)
    {
      RowValsAt(fp, InBounds, g, j, d);
      InBoundsCell(fp, g, j, d);
    }
  }

  /** Storing such a walk does what the inner loop of scalar::mandelbrot does to row j. */
  lemma ScalarWalkStores(fp: FloatOps, g: Grid, mem: seq<int>, j: nat, vs: seq<int>, ms: seq<bool>)
    requires ScalarWalk(fp, g, j, vs, ms)
    ensures GroupWrites(mem, RowStart(g.width, j), GroupsEnd(g.width), ms, vs) == ScalarRowPart(fp, g, mem, j, g.width)
  {
  }

  /** Storing such walks for rows 0, 1, ... leaves the buffer as the scalar kernel's rows. */
  lemma {:induction false} ScalarWalksStore(fp: FloatOps, g: Grid, mem: seq<int>, vss: seq<seq<int>>, mss: seq<seq<bool>>)
    requires |vss| == |mss|
    requires forall r :: 0 <= r < |vss| ==> ScalarWalk(fp, g, r, vss[r], mss[r])
    ensures RowsWith(mem, g.width, vss, mss) == ScalarRows(fp, g, mem, |vss|)
    decreases |vss|
  {
    if |vss| > 0 {
      var n := |vss| - 1;
      ScalarWalksStore(fp, g, mem, vss[..n], mss[..n]);
      ScalarWalkStores(fp, g, RowsWith(mem, g.width, vss[..n], mss[..n]), n, vss[n], mss[n]);
    }
  }

  /** With the column guard, tsimd::mandelbrot leaves the buffer exactly as
      scalar::mandelbrot does, when every cell's lane agrees with the scalar loop. */
  lemma InBoundsMatchesScalar(fp: FloatOps, g: Grid, mem: seq<int>)
    requires forall j, i :: 0 <= j < g.height && 0 <= i < g.width ==> CellAgrees(fp, g, j, i)
    ensures TsimdImage(fp, InBounds, g, mem) == ScalarImage(fp, g, mem)
  {
    var h := if g.height > 0 then g.height else 0;
    var vss := seq(h, r => RowVals(fp, InBounds, g, r));
    var mss := seq(h, r => RowMask(fp, InBounds, g));
    forall r | 0 <= r < h
      ensures IsRowPrefix(fp, InBounds, g, r, vss[r], mss[r]) && ScalarWalk(fp, g, r, vss[r], mss[r])
    {
      InBoundsWalk(fp, g, r);
    }
    RowsWithIsRows(fp, InBounds, g, mem, vss, mss);
    ScalarWalksStore(fp, g, mem, vss, mss);
  }

  /** With the column guard, every store lands inside the buffer exactly when it has room for
      the width * height cells, as for scalar::mandelbrot. */
  lemma InBoundsFitsIff(fp: FloatOps, g: Grid, len: int)
    requires len >= 0
    ensures MandelStoresFit(fp, InBounds, g, len) <==> CellCount(g) <= len
  {
    if CellCount(g) <= len {
      forall j: nat, d
        ensures StoreFits(fp, InBounds, g, len, j, d)
      {
        if j < g.height && 0 <= d < g.width {
          CellIndexInGrid(g, j, d);
        }
      }
    } else {
      GridEnd(g);
      assert !StoreFits(fp, InBounds, g, len, g.height - 1, g.width - 1);
    }
  }

  /** As written, the mask tests a lane's x coordinate against the width. When width is not
      a multiple of N the last group of a row has columns d from width on; if such a column's
      x is below the width (as it is for the usual window of x coordinates, which lies
      far below any width), the last row stores past the width * height cells, so a buffer
      of that size, which suffices for scalar::mandelbrot, is overrun. */
  lemma AsWrittenStoresPastGrid(fp: FloatOps, g: Grid, d: int)
    requires g.width > 0 && g.height > 0
    requires g.width <= d < GroupsEnd(g.width) && fp.lt(ColX(g, d), FromInt(g.width))
    ensures g.width % N != 0
    ensures !MandelStoresFit(fp, AsWritten, g, CellCount(g))
  {
    GroupsEndExact(g.width);
    GridEnd(g);
    assert !StoreFits(fp, AsWritten, g, CellCount(g), g.height - 1, d);
  }

  /** In a buffer long enough to take it, such a column of the last row is written past the
      width * height cells, with its value in the walk over that row (by RowValsAt, lane d % N of
      tsimd::mandel on its group), while scalar::mandelbrot leaves that index alone
      (ScalarImageKeepsRest). */
  lemma AsWrittenSpillsPastGrid(fp: FloatOps, g: Grid, mem: seq<int>, d: int)
    requires g.width > 0 && g.height > 0
    requires g.width <= d < GroupsEnd(g.width) && fp.lt(ColX(g, d), FromInt(g.width))
    requires RowStart(g.width, g.height - 1) + d < |mem|
    ensures CellCount(g) <= RowStart(g.width, g.height - 1) + d
    ensures TsimdImage(fp, AsWritten, g, mem)[RowStart(g.width, g.height - 1) + d]
            == RowVals(fp, AsWritten, g, g.height - 1)[d]
  {
    GridEnd(g);
    LastRowStores(fp, AsWritten, g, Rows(fp, AsWritten, g, mem, g.height - 1), d);
  }

  /** The last row's walk stores column d, when its mask lane is on, at its index. */
  lemma LastRowStores(fp: FloatOps, guard: Guard, g: Grid, prev: seq<int>, d: int)
    requires g.height > 0 && 0 <= d < GroupsEnd(g.width) && ColActive(fp, guard, g, d)
    requires 0 <= RowStart(g.width, g.height - 1) + d < |prev|
    ensures RowPart(fp, guard, g, prev, g.height - 1, GroupsEnd(g.width))[RowStart(g.width, g.height - 1) + d]
            == RowVals(fp, guard, g, g.height - 1)[d]
  {
    GroupWritesAt(prev, RowStart(g.width, g.height - 1), GroupsEnd(g.width), RowMask(fp, guard, g),
                  RowVals(fp, guard, g, g.height - 1), d);
  }

  /** x < width and col < width pick the same columns of the walk. */
  ghost predicate GuardsMatch(fp: FloatOps, g: Grid) {
    forall d :: 0 <= d < GroupsEnd(g.width) ==> (ColActive(fp, AsWritten, g, d) <==> d < g.width)
  }

  /** The two guards give the same image whenever their masks agree on every column of the
      walk: the guard as written differs from the intended one only through columns where
      x < width and col < width disagree. */
  lemma GuardsAgree(fp: FloatOps, g: Grid, mem: seq<int>)
    requires GuardsMatch(fp, g)
    ensures TsimdImage(fp, AsWritten, g, mem) == TsimdImage(fp, InBounds, g, mem)
  {
    var h := if g.height > 0 then g.height else 0;
    assert RowMask(fp, AsWritten, g) == RowMask(fp, InBounds, g);
    var vss := seq(h, r => RowVals(fp, InBounds, g, r));
    var mss := seq(h, r => RowMask(fp, InBounds, g));
    forall r | 0 <= r < h
      ensures IsRowPrefix(fp, InBounds, g, r, vss[r], mss[r]) && IsRowPrefix(fp, AsWritten, g, r, vss[r], mss[r])
    {
      SameRowVals(fp, g, r);
    }
    RowsWithIsRows(fp, InBounds, g, mem, vss, mss);
    RowsWithIsRows(fp, AsWritten, g, mem, vss, mss);
  }

  /** Under the same hypothesis every group gets the same mask, hence the same lanes. */
  lemma SameRowVals(fp: FloatOps, g: Grid, j: int)
    requires GuardsMatch(fp, g)
    ensures RowVals(fp, AsWritten, g, j) == RowVals(fp, InBounds, g, j)
  {
    forall d | 0 <= d < GroupsEnd(g.width)
      ensures RowVals(fp, AsWritten, g, j)[d] == RowVals(fp, InBounds, g, j)[d]
    {
      SameColumn(fp, g, j, d);
    }
  }

  /** Column d of the walk: the two guards give its group the same mask. */
  lemma SameColumn(fp: FloatOps, g: Grid, j: int, d: int)
    requires GuardsMatch(fp, g)
    requires 0 <= d < GroupsEnd(g.width)
    ensures RowVals(fp, AsWritten, g, j)[d] == RowVals(fp, InBounds, g, j)[d]
  {
    RowValsAt(fp, AsWritten, g, j, d);
    RowValsAt(fp, InBounds, g, j, d);
    GroupOfElement(g.width, d);
    SameMask(fp, g, d - d % N);
    SameCell(fp, g, j, d);
  }

  /** A group with the same mask under both guards computes the same lanes. */
  lemma SameCell(fp: FloatOps, g: Grid, j: int, d: int)
    requires ActiveMask(fp, AsWritten, g, d - d % N) == ActiveMask(fp, InBounds, g, d - d % N)
    ensures RowCell(fp, AsWritten, g, j, d) == RowCell(fp, InBounds, g, j, d)
  {
  }

  /** Under GuardsMatch, a group of the walk gets the same mask under both guards. */
  lemma SameMask(fp: FloatOps, g: Grid, i: int)
    requires 0 <= i && i + N <= GroupsEnd(g.width)
    requires GuardsMatch(fp, g)
    ensures ActiveMask(fp, AsWritten, g, i) == ActiveMask(fp, InBounds, g, i)
  {
  }
}
