/** TaskManagerLine: the eight line-by-line reading orders of the task
    grid, with optional snaking. */
module LineOrder {
  import opened Wrappers
  import opened SeqUtil
  import opened IntArith
  import opened TaskGrid

  /** Reading directions in the order of the source enum: kLRTB = 0 ... kBTRL = 7. */
  datatype Direction = LRTB | LRBT | RLTB | RLBT | TBLR | TBRL | BTLR | BTRL

  /** The value ParseAlgoParam passes as second parameter to turn snaking on. */
  const SnakeCode: int := 8

  function Code(d: Direction): (c: int)
    ensures 0 <= c < 8
  {
    match d
    case LRTB => 0 case LRBT => 1 case RLTB => 2 case RLBT => 3
    case TBLR => 4 case TBRL => 5 case BTLR => 6 case BTRL => 7
  }

  /** The switch of CreateTaskList: an unknown code falls back to LRTB. */
  function DirectionOf(code: int): (d: Direction)
    ensures (code < 0 || code >= 8) ==> d == LRTB
  {
    if code == 1 then LRBT else if code == 2 then RLTB else if code == 3 then RLBT
    else if code == 4 then TBLR else if code == 5 then TBRL else if code == 6 then BTLR
    else if code == 7 then BTRL else LRTB
  }

  lemma DirectionCodeRoundTrip(d: Direction)
    ensures DirectionOf(Code(d)) == d
  {
  }

  lemma CodeDirectionRoundTrip(c: int)
    requires 0 <= c < 8
    ensures Code(DirectionOf(c)) == c
  {
  }

  /** The two parameters of a line task manager, as raw integers. */
  datatype LineManager = LineManager(readingDir: int, snake: int)

  /** The constructor: LRTB without snaking. */
  const NewLineManager: LineManager := LineManager(0, 0)

  /** SetAdditionalParameters: index 0 is the direction, index 1 the snake
      flag, any other index is an error. */
  function SetAdditionalParameters(m: LineManager, idx: int, value: int): (r: Result<LineManager>)
    ensures r.Success? <==> (idx == 0 || idx == 1)
    ensures r.Success? && idx == 0 ==> r.value.readingDir == value && r.value.snake == m.snake
    ensures r.Success? && idx == 1 ==> r.value.snake == value && r.value.readingDir == m.readingDir
  {
    if idx == 0 then Success(m.(readingDir := value))
    else if idx == 1 then Success(m.(snake := value))
    else Failure("incorrect number of parameters")
  }

  /** How a direction walks the grid: the outer lines are rows or columns,
      walked with increasing or decreasing index, and each line has a
      standard inner direction. */
  datatype Walk = Walk(byRows: bool, outerUp: bool, innerUp: bool)

  function WalkOf(d: Direction): Walk {
    match d
    case LRTB => Walk(true, true, true)
    case LRBT => Walk(true, false, false)
    case RLTB => Walk(true, true, false)
    case RLBT => Walk(true, false, true)
    case TBLR => Walk(false, true, true)
    case TBRL => Walk(false, false, false)
    case BTLR => Walk(false, true, false)
    case BTRL => Walk(false, false, true)
  }

  function OuterCount(width: nat, height: nat, wk: Walk): nat {
    if wk.byRows then height else width
  }

  function InnerCount(width: nat, height: nat, wk: Walk): nat {
    if wk.byRows then width else height
  }

  /** 0 .. n-1 upward, or n-1 .. 0 downward. */
  function Count(n: nat, up: bool): (r: seq<nat>)
    ensures |r| == n
    ensures forall k | 0 <= k < n :: r[k] == if up then k else n - 1 - k
  {
    seq(n, k => if up then k else n - 1 - k)
  }

  /** Whether outer line `o` is read in its standard inner direction: always
      without snaking, only for even `o` with it. */
  function InnerUp(wk: Walk, snake: bool, o: nat): bool {
    if o % 2 == 0 || !snake then wk.innerUp else !wk.innerUp
  }

  /** The grid index h*W + w of the cell at outer position `o` and inner position `i`. */
  function GridIndex(width: nat, wk: Walk, o: nat, i: nat): nat {
    if wk.byRows then o * width + i else i * width + o
  }

  /** The grid indices of outer line `o`, in reading order. */
  function Line(width: nat, height: nat, wk: Walk, snake: bool, o: nat): (r: seq<nat>)
    ensures |r| == InnerCount(width, height, wk)
  {
    var inner := Count(InnerCount(width, height, wk), InnerUp(wk, snake, o));
    seq(|inner|, k requires 0 <= k < |inner| => GridIndex(width, wk, o, inner[k]))
  }

  /** The lines for the outer positions `outers`, one after the other. */
  function Sweep(width: nat, height: nat, wk: Walk, snake: bool, outers: seq<nat>): seq<nat>
  {
    if outers == [] then []
    else Line(width, height, wk, snake, outers[0]) + Sweep(width, height, wk, snake, outers[1..])
  }

  /** The task order of CreateTaskList: a permutation of the grid indices. */
  function TaskOrder(width: nat, height: nat, d: Direction, snake: bool): (r: seq<nat>)
    ensures IsPermutationOfRange(r, width * height)
  {
    var wk := WalkOf(d);
    TaskOrderPermutation(width, height, wk, snake);
    Sweep(width, height, wk, snake, Count(OuterCount(width, height, wk), wk.outerUp))
  }

  // ---------------------------------------------------------------------
  // Permutation proof

  /** The outer coordinate of a grid index: its row when lines are rows,
      its column when lines are columns. */
  function OuterOf(width: nat, wk: Walk, x: nat): nat
    requires width > 0
  {
    if wk.byRows then x / width else x % width
  }

  lemma GridIndexFacts(width: nat, height: nat, wk: Walk, o: nat, i: nat)
    requires o < OuterCount(width, height, wk) && i < InnerCount(width, height, wk)
    ensures width > 0
    ensures GridIndex(width, wk, o, i) < width * height
    ensures OuterOf(width, wk, GridIndex(width, wk, o, i)) == o
  {
    if wk.byRows {
      RowMajorBound(o, i, width, height);
      RowMajorOf(o, i, width);
    } else {
      RowMajorBound(i, o, width, height);
      RowMajorOf(i, o, width);
    }
  }

  /** Every grid index has its outer coordinate in range and lies on that line. */
  lemma {:induction false} IndexOnItsLine(width: nat, height: nat, wk: Walk, snake: bool, x: nat)
    requires x < width * height
    ensures width > 0
    ensures OuterOf(width, wk, x) < OuterCount(width, height, wk)
    ensures x in Line(width, height, wk, snake, OuterOf(width, wk, x))
  {
    assert width > 0;
    RowMajorSplit(x, width, height);
    var q, r := x / width, x % width;
    var o := OuterOf(width, wk, x);
    var i := if wk.byRows then r else q;
    assert o == if wk.byRows then q else r;
    var n := InnerCount(width, height, wk);
    assert i < n;
    assert GridIndex(width, wk, o, i) == q * width + r == x;
    var up := InnerUp(wk, snake, o);
    var inner := Count(n, up);
    var k := if up then i else n - 1 - i;
    assert inner[k] == i;
    var l := Line(width, height, wk, snake, o);
    assert l[k] == GridIndex(width, wk, o, inner[k]);
  }

  lemma LineFacts(width: nat, height: nat, wk: Walk, snake: bool, o: nat)
    requires o < OuterCount(width, height, wk)
    ensures Distinct(Line(width, height, wk, snake, o))
    ensures forall k | 0 <= k < |Line(width, height, wk, snake, o)| ::
      Line(width, height, wk, snake, o)[k] < width * height
      && OuterOf(width, wk, Line(width, height, wk, snake, o)[k]) == o
  {
    var l := Line(width, height, wk, snake, o);
    var n := InnerCount(width, height, wk);
    var inner := Count(n, InnerUp(wk, snake, o));
    forall k | 0 <= k < |l|
      ensures l[k] < width * height && OuterOf(width, wk, l[k]) == o
    {
      GridIndexFacts(width, height, wk, o, inner[k]);
    }
    forall a, b | 0 <= a < b < |l|
      ensures l[a] != l[b]
    {
      if !wk.byRows {
        GridIndexFacts(width, height, wk, o, inner[a]);
        if l[a] == l[b] { MulCancel(width, inner[a], inner[b]); }
      }
    }
  }

  lemma {:induction false} SweepFacts(width: nat, height: nat, wk: Walk, snake: bool, outers: seq<nat>)
    requires Distinct(outers)
    requires forall k | 0 <= k < |outers| :: outers[k] < OuterCount(width, height, wk)
    ensures |Sweep(width, height, wk, snake, outers)| == |outers| * InnerCount(width, height, wk)
    ensures Distinct(Sweep(width, height, wk, snake, outers))
    ensures forall k | 0 <= k < |Sweep(width, height, wk, snake, outers)| ::
      Sweep(width, height, wk, snake, outers)[k] < width * height
      && OuterOf(width, wk, Sweep(width, height, wk, snake, outers)[k]) in outers
  {
    if outers != [] {
      var l := Line(width, height, wk, snake, outers[0]);
      var rest := Sweep(width, height, wk, snake, outers[1..]);
      LineFacts(width, height, wk, snake, outers[0]);
      SweepFacts(width, height, wk, snake, outers[1..]);
      var s := l + rest;
      MulSucc(|outers| - 1, InnerCount(width, height, wk));
      forall a, b | 0 <= a < b < |s|
        ensures s[a] != s[b]
      {
        if a < |l| && b >= |l| {
          assert OuterOf(width, wk, s[a]) == outers[0];
          assert OuterOf(width, wk, s[b]) in outers[1..];
        }
      }
      forall k | 0 <= k < |s|
        ensures s[k] < width * height && OuterOf(width, wk, s[k]) in outers
      {
        if k >= |l| {
          assert s[k] == rest[k - |l|];
        }
      }
    }
  }

  lemma CountFacts(n: nat, up: bool)
    ensures Distinct(Count(n, up))
    ensures forall x: nat | x < n :: x in Count(n, up)
  {
    var c := Count(n, up);
    forall x: nat | x < n
      ensures x in c
    {
      assert c[if up then x else n - 1 - x] == x;
    }
  }

  lemma SweepCovers(width: nat, height: nat, wk: Walk, snake: bool, outers: seq<nat>, x: nat)
    requires width > 0 && OuterOf(width, wk, x) in outers
    requires x in Line(width, height, wk, snake, OuterOf(width, wk, x))
    ensures x in Sweep(width, height, wk, snake, outers)
  {
  }

  lemma TaskOrderPermutation(width: nat, height: nat, wk: Walk, snake: bool)
    ensures IsPermutationOfRange(
      Sweep(width, height, wk, snake, Count(OuterCount(width, height, wk), wk.outerUp)),
      width * height)
  {
    var outers := Count(OuterCount(width, height, wk), wk.outerUp);
    CountFacts(OuterCount(width, height, wk), wk.outerUp);
    SweepFacts(width, height, wk, snake, outers);
    OuterTimesInner(width, height, wk);
    TaskOrderCovers(width, height, wk, snake, outers);
  }

  lemma OuterTimesInner(width: nat, height: nat, wk: Walk)
    ensures OuterCount(width, height, wk) * InnerCount(width, height, wk) == width * height
  {
  }

  lemma TaskOrderCovers(width: nat, height: nat, wk: Walk, snake: bool, outers: seq<nat>)
    requires outers == Count(OuterCount(width, height, wk), wk.outerUp)
    ensures forall x: nat | x < width * height :: x in Sweep(width, height, wk, snake, outers)
  {
    CountFacts(OuterCount(width, height, wk), wk.outerUp);
    forall x: nat | x < width * height
      ensures x in Sweep(width, height, wk, snake, outers)
    {
      IndexOnItsLine(width, height, wk, snake, x);
      SweepCovers(width, height, wk, snake, outers, x);
    }
  }

  // ---------------------------------------------------------------------
  // Relations between orders

  /** LRTB without snaking is the identity order: position k holds task k. */
  lemma LrtbIsIdentity(width: nat, height: nat)
    ensures TaskOrder(width, height, LRTB, false) == Iota(width * height)
  {
    RowsAscending(width, height, height);
  }

  lemma {:induction false} RowsAscending(width: nat, height: nat, k: nat)
    requires k <= height
    ensures Sweep(width, height, WalkOf(LRTB), false, Count(k, true)) == Iota(k * width)
  {
    var wk := WalkOf(LRTB);
    if k > 0 {
      RowsAscending(width, height, k - 1);
      CountUpSnoc(k);
      SweepConcat(width, height, wk, false, Count(k - 1, true), [k - 1]);
      SweepSingle(width, height, wk, false, k - 1);
      IotaNextRow(width, height, k);
    }
  }

  lemma CountUpSnoc(k: nat)
    requires k > 0
    ensures Count(k, true) == Count(k - 1, true) + [k - 1]
  {
  }

  lemma SweepSingle(width: nat, height: nat, wk: Walk, snake: bool, o: nat)
    ensures Sweep(width, height, wk, snake, [o]) == Line(width, height, wk, snake, o)
  {
    assert [o][1..] == [];
    assert Line(width, height, wk, snake, o) + [] == Line(width, height, wk, snake, o);
  }

  /** Row k - 1 read left to right holds the next `width` naturals. */
  lemma IotaNextRow(width: nat, height: nat, k: nat)
    requires k > 0
    ensures Iota(k * width) == Iota((k - 1) * width) + Line(width, height, WalkOf(LRTB), false, k - 1)
  {
    MulSucc(k - 1, width);
  }

  lemma {:induction false} SweepConcat(width: nat, height: nat, wk: Walk, snake: bool, a: seq<nat>, b: seq<nat>)
    ensures Sweep(width, height, wk, snake, a + b)
         == Sweep(width, height, wk, snake, a) + Sweep(width, height, wk, snake, b)
  {
    if a == [] {
      assert a + b == b;
    } else {
      assert (a + b)[0] == a[0];
      assert (a + b)[1..] == a[1..] + b;
      SweepConcat(width, height, wk, snake, a[1..], b);
    }
  }

  function Flip(wk: Walk): Walk {
    Walk(wk.byRows, !wk.outerUp, !wk.innerUp)
  }

  /** Reversing the inner direction reverses every line, with or without snaking. */
  lemma LineFlip(width: nat, height: nat, wk: Walk, snake: bool, o: nat)
    ensures Line(width, height, Flip(wk), snake, o) == Reverse(Line(width, height, wk, snake, o))
  {
  }

  lemma {:induction false} SweepFlip(width: nat, height: nat, wk: Walk, snake: bool, outers: seq<nat>)
    ensures Sweep(width, height, Flip(wk), snake, Reverse(outers))
         == Reverse(Sweep(width, height, wk, snake, outers))
  {
    if outers != [] {
      var l := Line(width, height, wk, snake, outers[0]);
      var rest := Sweep(width, height, wk, snake, outers[1..]);
      assert Reverse(outers) == Reverse(outers[1..]) + [outers[0]];
      SweepConcat(width, height, Flip(wk), snake, Reverse(outers[1..]), [outers[0]]);
      SweepFlip(width, height, wk, snake, outers[1..]);
      LineFlip(width, height, wk, snake, outers[0]);
      ReverseConcat(l, rest);
    }
  }

  lemma CountFlip(n: nat, up: bool)
    ensures Count(n, !up) == Reverse(Count(n, up))
  {
  }

  /** The orders that start from the far corner are, as coded, the exact
      reverses of their counterparts, with or without snaking: LRBT walks
      its rows right to left and TBRL its columns bottom to top. */
  lemma FarCornerOrdersAreReversed(width: nat, height: nat, snake: bool)
    ensures TaskOrder(width, height, LRBT, snake) == Reverse(TaskOrder(width, height, LRTB, snake))
    ensures TaskOrder(width, height, RLBT, snake) == Reverse(TaskOrder(width, height, RLTB, snake))
    ensures TaskOrder(width, height, TBRL, snake) == Reverse(TaskOrder(width, height, TBLR, snake))
    ensures TaskOrder(width, height, BTRL, snake) == Reverse(TaskOrder(width, height, BTLR, snake))
  {
    FarCornerReversed(width, height, LRTB, snake);
    FarCornerReversed(width, height, RLTB, snake);
    FarCornerReversed(width, height, TBLR, snake);
    FarCornerReversed(width, height, BTLR, snake);
  }

  lemma FarCornerReversed(width: nat, height: nat, d: Direction, snake: bool)
    requires d in {LRTB, RLTB, TBLR, BTLR}
    ensures TaskOrder(width, height, FarCorner(d), snake) == Reverse(TaskOrder(width, height, d, snake))
  {
    var wk := WalkOf(d);
    assert WalkOf(FarCorner(d)) == Flip(wk);
    var n := OuterCount(width, height, wk);
    CountFlip(n, true);
    SweepFlip(width, height, wk, snake, Count(n, true));
  }

  function FarCorner(d: Direction): Direction {
    match d
    case LRTB => LRBT case RLTB => RLBT case TBLR => TBRL case BTLR => BTRL
    case LRBT => LRTB case RLBT => RLTB case TBRL => TBLR case BTRL => BTLR
  }

  /** In snake mode a line is read against its standard direction iff its
      absolute row or column index is odd. */
  lemma SnakeReversesOddLines(width: nat, height: nat, wk: Walk, o: nat)
    ensures o % 2 == 1 ==>
      Line(width, height, wk, true, o) == Reverse(Line(width, height, wk, false, o))
    ensures o % 2 == 0 ==>
      Line(width, height, wk, true, o) == Line(width, height, wk, false, o)
  {
    LineFlip(width, height, wk, false, o);
  }

  // ---------------------------------------------------------------------
  // The imperative list construction

  /** One CreateTaskList_* inner loop: the task units of outer line `o`. */
  method ReadLine(g: Grid, wk: Walk, snake: bool, o: nat) returns (units: seq<TaskUnit>)
    requires g.Valid() && o < OuterCount(g.perWidth, g.perHeight, wk)
    ensures forall k | 0 <= k < |Line(g.perWidth, g.perHeight, wk, snake, o)| ::
      Line(g.perWidth, g.perHeight, wk, snake, o)[k] < g.nbTasks
    ensures units == Areas(g, Line(g.perWidth, g.perHeight, wk, snake, o))
  {
    var nInner := InnerCount(g.perWidth, g.perHeight, wk);
    ghost var line := Line(g.perWidth, g.perHeight, wk, snake, o);
    LineFacts(g.perWidth, g.perHeight, wk, snake, o);
    var up := InnerUp(wk, snake, o);
    units := [];
    var k := 0;
    while k < nInner
      invariant 0 <= k <= nInner
      invariant units == Areas(g, line[..k])
    {
      var i := if up then k else nInner - 1 - k;
      var idx := GridIndex(g.perWidth, wk, o, i);
      assert idx == line[k];
      units := units + [CreateAreaFromTask(g, idx)];
      k := k + 1;
    }
    assert line[..k] == line;
  }

  /** TaskManagerLine::CreateTaskList: the eight CreateTaskList_* loops differ
      only in the direction of their two loops, given here by WalkOf. The
      result is the task units of TaskOrder, in order. */
  method CreateTaskList(g: Grid, m: LineManager) returns (tasks: seq<TaskUnit>)
    requires g.Valid()
    ensures |tasks| == g.nbTasks
    ensures tasks == Areas(g, TaskOrder(g.perWidth, g.perHeight, DirectionOf(m.readingDir), m.snake != 0))
  {
    var width, height := g.perWidth, g.perHeight;
    var wk := WalkOf(DirectionOf(m.readingDir));
    var snake := m.snake != 0;
    var nOuter := OuterCount(width, height, wk);
    ghost var outers := Count(nOuter, wk.outerUp);
    CountFacts(nOuter, wk.outerUp);
    tasks := [];
    var j := 0;
    while j < nOuter
      invariant 0 <= j <= nOuter
      invariant SweepPrefixValid(width, height, wk, snake, outers, j)
      invariant tasks == Areas(g, Sweep(width, height, wk, snake, outers[..j]))
    {
      var o := if wk.outerUp then j else nOuter - 1 - j;
      assert o == outers[j];
      var units := ReadLine(g, wk, snake, o);
      CreateStep(g, wk, snake, outers, j, tasks, units);
      tasks := tasks + units;
      j := j + 1;
    }
    assert outers[..j] == outers;
    assert Sweep(width, height, wk, snake, outers)
        == TaskOrder(width, height, DirectionOf(m.readingDir), snake);
  }

  /** One turn of the loop of createTaskList: the units of the next line
      extend the units of the sweep so far. */
  lemma CreateStep(g: Grid, wk: Walk, snake: bool, outers: seq<nat>, j: nat,
                   tasks: seq<TaskUnit>, units: seq<TaskUnit>)
    requires g.Valid() && j < |outers| && Distinct(outers)
    requires forall k | 0 <= k < |outers| :: outers[k] < OuterCount(g.perWidth, g.perHeight, wk)
    requires SweepPrefixValid(g.perWidth, g.perHeight, wk, snake, outers, j)
    requires tasks == Areas(g, Sweep(g.perWidth, g.perHeight, wk, snake, outers[..j]))
    requires forall k | 0 <= k < |Line(g.perWidth, g.perHeight, wk, snake, outers[j])| ::
      Line(g.perWidth, g.perHeight, wk, snake, outers[j])[k] < g.nbTasks
    requires units == Areas(g, Line(g.perWidth, g.perHeight, wk, snake, outers[j]))
    ensures SweepPrefixValid(g.perWidth, g.perHeight, wk, snake, outers, j + 1)
    ensures tasks + units == Areas(g, Sweep(g.perWidth, g.perHeight, wk, snake, outers[..j + 1]))
  {
    var width, height := g.perWidth, g.perHeight;
    SweepNextLine(width, height, wk, snake, outers, j);
    SweepPrefixStep(width, height, wk, snake, outers, j);
    AreasConcat(g, Sweep(width, height, wk, snake, outers[..j]), Line(width, height, wk, snake, outers[j]));
  }

  /** One more outer position adds its line to the sweep. */
  lemma SweepNextLine(width: nat, height: nat, wk: Walk, snake: bool, outers: seq<nat>, j: nat)
    requires j < |outers|
    ensures Sweep(width, height, wk, snake, outers[..j + 1])
         == Sweep(width, height, wk, snake, outers[..j]) + Line(width, height, wk, snake, outers[j])
  {
    assert outers[..j + 1] == outers[..j] + [outers[j]];
    SweepConcat(width, height, wk, snake, outers[..j], [outers[j]]);
    SweepSingle(width, height, wk, snake, outers[j]);
  }

  /** The part of the order built so far only holds valid task indices. */
  ghost predicate SweepPrefixValid(width: nat, height: nat, wk: Walk, snake: bool, outers: seq<nat>, j: nat)
    requires j <= |outers|
  {
    forall k | 0 <= k < |Sweep(width, height, wk, snake, outers[..j])| ::
      Sweep(width, height, wk, snake, outers[..j])[k] < width * height
  }

  lemma SweepPrefixStep(width: nat, height: nat, wk: Walk, snake: bool, outers: seq<nat>, j: nat)
    requires j < |outers| && Distinct(outers)
    requires forall k | 0 <= k < |outers| :: outers[k] < OuterCount(width, height, wk)
    ensures SweepPrefixValid(width, height, wk, snake, outers, j + 1)
  {
    SweepFacts(width, height, wk, snake, outers[..j + 1]);
  }
}
