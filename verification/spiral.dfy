/** TaskManagerSpiral: the task list in the order of a square spiral that
    starts from the centre of the task grid. */
module Spiral {
  import opened Wrappers
  import opened IntArith
  import opened TaskGrid

  /** Rotation senses of the source enum. */
  const Trigo: int := 1
  const NonTrigo: int := -1

  datatype SpiralManager = SpiralManager(spiralDir: int)

  /** The constructor turns counter-clockwise (trigonometric sense). */
  const NewSpiralManager: SpiralManager := SpiralManager(Trigo)

  /** SetAdditionalParameters: index 0 is the rotation sense, any other index is an error. */
  function SetAdditionalParameters(m: SpiralManager, idx: int, value: int): (r: Result<SpiralManager>)
    ensures r.Success? <==> idx == 0
    ensures r.Success? ==> r.value.spiralDir == value
  {
    if idx == 0 then Success(m.(spiralDir := value))
    else Failure("incorrect number of parameters")
  }

  /** The starting column or row: the middle one, the lower middle one when
      the count is even. */
  function Pivot(n: nat): (p: int)
    ensures p == (n - 1) / 2
    ensures n > 0 ==> 0 <= p < n && (n - 1 - p) - p <= 1 && p <= n - 1 - p
  {
    if n % 2 == 0 then n / 2 - 1 else n / 2
  }

  /** The spiral map value of a cell that was never visited: the pixel count
      of the image, not the task count. */
  function Sentinel(g: Grid): nat {
    g.imgWidth * g.imgHeight
  }

  /** No visit count ever reaches the sentinel, since a task covers at least one pixel. */
  lemma TaskCountBelowSentinel(g: Grid)
    requires g.Valid()
    ensures g.nbTasks <= Sentinel(g)
  {
    CeilAtMostSize(g.perWidth, g.imgWidth, g.tskWidth);
    CeilAtMostSize(g.perHeight, g.imgHeight, g.tskHeight);
    MulMono(g.perWidth, g.imgWidth, g.perHeight);
    MulMono(g.perHeight, g.imgHeight, g.imgWidth);
  }

  lemma CeilAtMostSize(q: nat, n: nat, d: nat)
    requires d > 0 && IsCeilDiv(q, n, d)
    ensures q <= n
  {
    if q > 0 {
      MulMono(1, d, q - 1);
    }
  }

  predicate InGrid(g: Grid, w: int, h: int) {
    0 <= w < g.perWidth && 0 <= h < g.perHeight
  }

  function CellIndex(g: Grid, w: int, h: int): (idx: nat)
    requires g.Valid() && InGrid(g, w, h)
    ensures idx < g.nbTasks
  {
    RowMajorBound(h, w, g.perWidth, g.perHeight);
    h * g.perWidth + w
  }

  /** The state threaded through RecursiveSpiral: the position, the current
      direction vector, the visit count, the spiral map and the recorded
      task indices (p_tasks[k] holds the area of tasks[k]). */
  datatype Walker = Walker(w: int, h: int, dx: int, dy: int, count: nat,
                           spiralMap: seq<nat>, tasks: seq<nat>)

  /** The spiral map and the task list agree: a cell is marked iff it was
      recorded, and its mark is the position of its last recording. */
  predicate Consistent(g: Grid, st: Walker) {
    && g.Valid()
    && |st.spiralMap| == g.nbTasks
    && |st.tasks| == st.count <= g.nbTasks
    && (forall k | 0 <= k < |st.tasks| :: st.tasks[k] < g.nbTasks)
    && (forall i | 0 <= i < |st.spiralMap| :: st.spiralMap[i] == Sentinel(g) <==> i !in st.tasks)
    && (forall i | 0 <= i < |st.spiralMap| && st.spiralMap[i] != Sentinel(g) ::
          st.spiralMap[i] < st.count && st.tasks[st.spiralMap[i]] == i)
  }

  /** The first half of RecursiveSpiral: a position inside the grid is
      recorded under index h*W + w and marked with the current count;
      outside the grid nothing happens. */
  function Mark(g: Grid, st: Walker): (r: Walker)
    requires Consistent(g, st) && (InGrid(g, st.w, st.h) ==> st.count < g.nbTasks)
    ensures Consistent(g, r)
    ensures InGrid(g, st.w, st.h) ==>
      && r.tasks == st.tasks + [CellIndex(g, st.w, st.h)]
      && r.count == st.count + 1
      && r.spiralMap[CellIndex(g, st.w, st.h)] == st.count
    ensures !InGrid(g, st.w, st.h) ==> r == st
    ensures r.w == st.w && r.h == st.h && r.dx == st.dx && r.dy == st.dy
  {
    if InGrid(g, st.w, st.h) then
      var idx := CellIndex(g, st.w, st.h);
      Record(g, st, idx)
    else st
  }

  /** Records task `idx` at the current count. */
  function Record(g: Grid, st: Walker, idx: nat): (r: Walker)
    requires Consistent(g, st) && st.count < g.nbTasks && idx < g.nbTasks
    ensures Consistent(g, r)
    ensures r.tasks == st.tasks + [idx] && r.count == st.count + 1 && r.spiralMap[idx] == st.count
    ensures r.w == st.w && r.h == st.h && r.dx == st.dx && r.dy == st.dy
  {
    var r := st.(spiralMap := st.spiralMap[idx := st.count], tasks := st.tasks + [idx],
                 count := st.count + 1);
    TaskCountBelowSentinel(g);
    forall i | 0 <= i < |r.spiralMap|
      ensures r.spiralMap[i] == Sentinel(g) <==> i !in r.tasks
    {
      if i != idx {
        assert i in r.tasks <==> i in st.tasks;
      } else {
        assert r.tasks[st.count] == i;
      }
    }
    forall i | 0 <= i < |r.spiralMap| && r.spiralMap[i] != Sentinel(g)
      ensures r.spiralMap[i] < r.count && r.tasks[r.spiralMap[i]] == i
    {
      if i != idx {
        assert r.tasks[st.spiralMap[i]] == st.tasks[st.spiralMap[i]];
      }
    }
    r
  }

  /** SpiralCanTurn: the spiral may turn into any cell outside the grid and
      into an inside cell whose map entry is still the sentinel. */
  function SpiralCanTurn(g: Grid, spiralMap: seq<nat>, w: int, h: int): (b: bool)
    requires g.Valid() && |spiralMap| == g.nbTasks
  {
    if !InGrid(g, w, h) then true
    else spiralMap[CellIndex(g, w, h)] == Sentinel(g)
  }

  /** With a consistent map, the spiral refuses exactly the cells it has already visited. */
  lemma CannotTurnIffVisited(g: Grid, st: Walker, w: int, h: int)
    requires Consistent(g, st)
    ensures !SpiralCanTurn(g, st.spiralMap, w, h) <==> InGrid(g, w, h) && CellIndex(g, w, h) in st.tasks
  {
  }

  /** The turn applied to the direction vector (dx, dy). */
  function Turn(dir: int, dx: int, dy: int): (int, int) {
    (dir * dy, -dir * dx)
  }

  function Abs(x: int): nat {
    if x < 0 then -x else x
  }

  /** For either rotation sense a turn keeps the step length |dx| + |dy|,
      and four turns give back the original direction. */
  lemma TurnIsRotation(dir: int, dx: int, dy: int)
    requires dir == Trigo || dir == NonTrigo
    ensures var (ex, ey) := Turn(dir, dx, dy); Abs(ex) + Abs(ey) == Abs(dx) + Abs(dy)
    ensures var (ax, ay) := Turn(dir, dx, dy);
            var (px, py) := Turn(dir, ax, ay);
            var (cx, cy) := Turn(dir, px, py);
            Turn(dir, cx, cy) == (dx, dy)
  {
  }

  /** RecursiveSpiral with a bound on the number of steps: None means the
      bound ran out before every task was recorded (the source has no bound). */
  function RecursiveSpiral(g: Grid, dir: int, st: Walker, fuel: nat): (r: Option<Walker>)
    requires Consistent(g, st) && (InGrid(g, st.w, st.h) ==> st.count < g.nbTasks)
    ensures r.Some? ==> Consistent(g, r.value)
    ensures r.Some? ==> r.value.count == g.nbTasks || (st.count == 0 == g.nbTasks && r.value == st)
    ensures r.Some? ==> Mark(g, st).tasks <= r.value.tasks
    decreases fuel
  {
    var st1 := Mark(g, st);
    if st1.count >= g.nbTasks then Some(st1)
    else if fuel == 0 then None
    else
      var (dx, dy) := if SpiralCanTurn(g, st1.spiralMap, st1.w + dir * st1.dy, st1.h - dir * st1.dx)
                      then Turn(dir, st1.dx, st1.dy) else (st1.dx, st1.dy);
      RecursiveSpiral(g, dir, st1.(w := st1.w + dx, h := st1.h + dy, dx := dx, dy := dy), fuel - 1)
  }

  /** The state CreateTaskList starts from: the pivot cell, heading along
      +h scaled by the rotation sense, and an unmarked map. */
  function Start(g: Grid, m: SpiralManager): (st: Walker)
    requires g.Valid()
    ensures Consistent(g, st) && (InGrid(g, st.w, st.h) ==> st.count < g.nbTasks)
    ensures st.count == 0 && st.tasks == []
    ensures forall i | 0 <= i < |st.spiralMap| :: st.spiralMap[i] == Sentinel(g)
    ensures st.w == Pivot(g.perWidth) && st.h == Pivot(g.perHeight)
    ensures st.dx == 0 && st.dy == m.spiralDir
  {
    NoTasksIffEmptyGrid(g);
    Walker(Pivot(g.perWidth), Pivot(g.perHeight), 0, m.spiralDir, 0,
           seq(g.nbTasks, _ => Sentinel(g)), [])
  }

  lemma NoTasksIffEmptyGrid(g: Grid)
    requires g.Valid()
    ensures g.nbTasks == 0 <==> g.perWidth == 0 || g.perHeight == 0
  {
    MulMono(1, g.perWidth, g.perHeight);
  }

  /** TaskManagerSpiral::CreateTaskList, with a step bound. When it completes,
      the list has one unit per task and, for a non-empty grid, begins with the
      pivot cell. */
  function CreateTaskList(g: Grid, m: SpiralManager, fuel: nat): (r: Option<seq<TaskUnit>>)
    requires g.Valid()
    ensures r.Some? ==> |r.value| == g.nbTasks
    ensures r.Some? && g.nbTasks > 0 ==>
      r.value[0] == CreateAreaFromTask(g, StartIndex(g))
  {
    var st := Start(g, m);
    match RecursiveSpiral(g, m.spiralDir, st, fuel)
    case None => None
    case Some(done) =>
      if g.nbTasks > 0 then
        NoTasksIffEmptyGrid(g);
        FirstRecordIsPivot(g, m.spiralDir, st, fuel);
        var units := Areas(g, done.tasks);
        assert units[0] == CreateAreaFromTask(g, done.tasks[0]);
        Some(units)
      else Some(Areas(g, done.tasks))
  }

  /** The task index of the pivot cell of a non-empty grid. */
  function StartIndex(g: Grid): nat
    requires g.Valid() && g.nbTasks > 0
  {
    NoTasksIffEmptyGrid(g);
    CellIndex(g, Pivot(g.perWidth), Pivot(g.perHeight))
  }

  lemma FirstRecordIsPivot(g: Grid, dir: int, st: Walker, fuel: nat)
    requires Consistent(g, st) && InGrid(g, st.w, st.h) && st.count == 0 && st.count < g.nbTasks
    requires RecursiveSpiral(g, dir, st, fuel).Some?
    ensures |RecursiveSpiral(g, dir, st, fuel).value.tasks| > 0
    ensures RecursiveSpiral(g, dir, st, fuel).value.tasks[0] == CellIndex(g, st.w, st.h)
  {
    var st1 := Mark(g, st);
    assert st1.tasks == [CellIndex(g, st.w, st.h)];
  }
}
