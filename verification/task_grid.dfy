/** Tiling of the rendered image into rectangular task units
    (TaskUnit and the shared part of TaskManagerBase). */
module TaskGrid {

  import opened IntArith

  /** An image area with inclusive corners: upper-left (ulx, uly),
      bottom-right (brx, bry). A default TaskUnit is all zeros. */
  datatype TaskUnit = TaskUnit(ulx: nat, uly: nat, brx: nat, bry: nat)

  const DefaultUnit: TaskUnit := TaskUnit(0, 0, 0, 0)

  /** TaskUnit::Define overwrites all four corners of `t`. */
  function Define(t: TaskUnit, ulx: nat, uly: nat, brx: nat, bry: nat): (r: TaskUnit)
    ensures Retrieve(r) == (ulx, uly, brx, bry)
  {
    t.(ulx := ulx, uly := uly, brx := brx, bry := bry)
  }

  /** TaskUnit::Retrieve reads the four corners back. */
  function Retrieve(t: TaskUnit): (nat, nat, nat, nat) {
    (t.ulx, t.uly, t.brx, t.bry)
  }

  /** The base parameters of a task manager: the image rectangle, the task
      size and the derived counts of tasks per row and per column. */
  datatype Grid = Grid(imgUlx: nat, imgUly: nat, imgWidth: nat, imgHeight: nat,
                       tskWidth: nat, tskHeight: nat,
                       perWidth: nat, perHeight: nat, nbTasks: nat)
  {
    /** The counts are the ceiling of image size over task size, and the
        task total is their product. */
    predicate Valid() {
      && tskWidth > 0 && tskHeight > 0
      && IsCeilDiv(perWidth, imgWidth, tskWidth)
      && IsCeilDiv(perHeight, imgHeight, tskHeight)
      && nbTasks == perWidth * perHeight
    }
  }

  /** `q` is the least count of `d`-wide pieces that covers `n`. */
  predicate IsCeilDiv(q: nat, n: nat, d: nat) {
    && q * d >= n
    && (q == 0 || (q - 1) * d < n)
  }

  /** The C++ computation: quotient plus one when the remainder is nonzero. */
  function CeilDiv(n: nat, d: nat): (q: nat)
    requires d > 0
    ensures IsCeilDiv(q, n, d)
  {
    var q := n / d + (if n % d != 0 then 1 else 0);
    assert n == (n / d) * d + n % d;
    q
  }

  lemma CeilDivUnique(q1: nat, q2: nat, n: nat, d: nat)
    requires d > 0 && IsCeilDiv(q1, n, d) && IsCeilDiv(q2, n, d)
    ensures q1 == q2
  {
    if q1 < q2 {
      MulMono(q1, q2 - 1, d);
    } else if q2 < q1 {
      MulMono(q2, q1 - 1, d);
    }
  }

  /** TaskManagerBase::SetBaseParameters. A zero task size is a division by
      zero in the source, hence the precondition. */
  function SetBaseParameters(imgUlx: nat, imgUly: nat, imgWidth: nat, imgHeight: nat,
                             tskWidth: nat, tskHeight: nat): (g: Grid)
    requires tskWidth > 0 && tskHeight > 0
    ensures g.Valid()
    ensures g.imgUlx == imgUlx && g.imgUly == imgUly
    ensures g.imgWidth == imgWidth && g.imgHeight == imgHeight
    ensures g.tskWidth == tskWidth && g.tskHeight == tskHeight
  {
    var pw := CeilDiv(imgWidth, tskWidth);
    var ph := CeilDiv(imgHeight, tskHeight);
    Grid(imgUlx, imgUly, imgWidth, imgHeight, tskWidth, tskHeight, pw, ph, pw * ph)
  }

  /** No tasks at all iff the image has no pixel. */
  lemma NoTasksIffEmptyImage(g: Grid)
    requires g.Valid()
    ensures g.nbTasks == 0 <==> (g.imgWidth == 0 || g.imgHeight == 0)
  {
    MulMono(1, g.perWidth, g.perHeight);
  }

  /** TaskManagerBase::CreateAreaFromTask: the area of grid task `idx`,
      row-major, with the bottom-right corner clipped as the source does
      (to imgUlx + imgWidth, not imgUlx + imgWidth - 1). */
  function CreateAreaFromTask(g: Grid, idx: nat): (t: TaskUnit)
    requires g.Valid() && idx < g.nbTasks
    ensures t.ulx <= t.brx <= g.imgUlx + g.imgWidth
    ensures t.uly <= t.bry <= g.imgUly + g.imgHeight
    ensures t.brx < t.ulx + g.tskWidth && t.bry < t.uly + g.tskHeight
  {
    assert g.perWidth > 0;
    RowMajorSplit(idx, g.perWidth, g.perHeight);
    DivModNat(idx, g.perWidth);
    var col: nat := idx % g.perWidth;
    var row: nat := idx / g.perWidth;
    CellInsideImage(col, g.perWidth, g.imgWidth, g.tskWidth);
    CellInsideImage(row, g.perHeight, g.imgHeight, g.tskHeight);
    var x := Span(g.imgUlx, g.imgWidth, g.tskWidth, col);
    var y := Span(g.imgUly, g.imgHeight, g.tskHeight, row);
    Define(DefaultUnit, x.0, y.0, x.1, y.1)
  }

  /** The first and last pixel, along one axis, of cell `c` of `tsk`
      pixels in an image of `size` pixels from `origin`: the last is
      clipped to origin + size. */
  function Span(origin: nat, size: nat, tsk: nat, c: nat): (r: (nat, nat))
    requires tsk > 0 && tsk * c < size
    ensures r.0 == origin + tsk * c
    ensures r.0 <= r.1 <= origin + size && r.1 < r.0 + tsk
  {
    var first := origin + tsk * c;
    (first, if first + tsk - 1 > origin + size then origin + size else first + tsk - 1)
  }

  /** The first pixel of cell `c` of a row of `count` cells lies inside the image. */
  lemma CellInsideImage(c: nat, count: nat, size: nat, tsk: nat)
    requires tsk > 0 && IsCeilDiv(count, size, tsk) && c < count
    ensures tsk * c < size
  {
    assert tsk * c <= tsk * (count - 1);
  }

  /** Row-major placement: task h*W + w starts at column w and row h of the grid. */
  lemma AreaFollowsRowMajor(g: Grid, h: nat, w: nat)
    requires g.Valid() && w < g.perWidth && h < g.perHeight
    ensures h * g.perWidth + w < g.nbTasks
    ensures CreateAreaFromTask(g, h * g.perWidth + w).ulx == g.imgUlx + g.tskWidth * w
    ensures CreateAreaFromTask(g, h * g.perWidth + w).uly == g.imgUly + g.tskHeight * h
  {
    var idx := h * g.perWidth + w;
    MulMono(h + 1, g.perHeight, g.perWidth);
    MulSucc(h, g.perWidth);
    assert idx < g.nbTasks;
    RowMajorOf(h, w, g.perWidth);
    assert idx / g.perWidth == h && idx % g.perWidth == w;
  }

  /** Distinct tasks start at distinct upper-left corners: no two tiles
      share a first pixel. */
  lemma DistinctTasksDistinctCorners(g: Grid, i: nat, j: nat)
    requires g.Valid() && i < g.nbTasks && j < g.nbTasks && i != j
    ensures var (ui, vi, _, _) := Retrieve(CreateAreaFromTask(g, i));
            var (uj, vj, _, _) := Retrieve(CreateAreaFromTask(g, j));
            ui != uj || vi != vj
  {
    var w := g.perWidth;
    RowMajorSplit(i, w, g.perHeight);
    RowMajorSplit(j, w, g.perHeight);
    var ti := CreateAreaFromTask(g, i);
    var tj := CreateAreaFromTask(g, j);
    assert ti.ulx == g.imgUlx + g.tskWidth * (i % w) && ti.uly == g.imgUly + g.tskHeight * (i / w);
    assert tj.ulx == g.imgUlx + g.tskWidth * (j % w) && tj.uly == g.imgUly + g.tskHeight * (j / w);
    if ti.ulx == tj.ulx && ti.uly == tj.uly {
      MulCancel(g.tskWidth, i % w, j % w);
      MulCancel(g.tskHeight, i / w, j / w);
    }
  }

  /** The task units of the grid indices `ids`, in order. */
  function Areas(g: Grid, ids: seq<nat>): (r: seq<TaskUnit>)
    requires g.Valid()
    requires forall k | 0 <= k < |ids| :: ids[k] < g.nbTasks
    ensures |r| == |ids|
  {
    seq(|ids|, k requires 0 <= k < |ids| => CreateAreaFromTask(g, ids[k]))
  }

  lemma AreasConcat(g: Grid, a: seq<nat>, b: seq<nat>)
    requires g.Valid()
    requires forall k | 0 <= k < |a + b| :: (a + b)[k] < g.nbTasks
    ensures forall k | 0 <= k < |a| :: a[k] < g.nbTasks
    ensures forall k | 0 <= k < |b| :: b[k] < g.nbTasks
    ensures Areas(g, a + b) == Areas(g, a) + Areas(g, b)
  {
    forall k | 0 <= k < |a| ensures a[k] < g.nbTasks { assert (a + b)[k] == a[k]; }
    forall k | 0 <= k < |b| ensures b[k] < g.nbTasks { assert (a + b)[|a| + k] == b[k]; }
  }
}
