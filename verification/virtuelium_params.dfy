/** Command-line parameter handling of core/Virtuelium.cpp: the render
    area "xmin:ymin:xmax:ymax" and the choice of task ordering. */
module VirtueliumParams {

  import opened Wrappers
  import opened AttributeReaders
  import opened SeqUtil
  import LineOrder
  import Spiral

  // ---------------------------------------------------------------------
  // ParseAreaParam

  datatype Area = Area(xmin: int, ymin: int, xmax: int, ymax: int)

  /** The number of ':' in s. */
  function Colons(s: string): nat {
    if s == [] then 0 else Colons(s[1..]) + (if s[0] == ':' then 1 else 0)
  }

  /** The text before the first ':' and the text after it. */
  function SplitColon(s: string): (r: Option<(string, string)>)
    ensures r.None? <==> Colons(s) == 0
    ensures r.Some? ==> s == r.value.0 + ":" + r.value.1 && ':' !in r.value.0
    ensures r.Some? ==> Colons(r.value.1) == Colons(s) - 1
  {
    var p := FindChar(s, ':', 0);
    ColonsSplit(s, p);
    if p == |s| then None
    else
      assert s == s[..p] + ":" + s[p + 1..];
      Some((s[..p], s[p + 1..]))
  }

  lemma {:induction false} ColonsSplit(s: string, p: nat)
    requires p <= |s| && forall k | 0 <= k < p :: s[k] != ':'
    ensures p == |s| ==> Colons(s) == 0
    ensures p < |s| && s[p] == ':' ==> Colons(s) == Colons(s[p + 1..]) + 1
  {
    if p > 0 {
      assert forall k | 0 <= k < p - 1 :: s[1..][k] == s[k + 1];
      ColonsSplit(s[1..], p - 1);
      if p < |s| {
        assert s[1..][p..] == s[p + 1..];
      }
    }
  }

  /** One component: strtol, narrowed to int. */
  function Component(t: string): int {
    ToInt32(Strtol(t))
  }

  /** The four fields of the text: three ':'-terminated ones and the rest
      of the text, each converted as soon as it is cut out; a negative
      field stops the parse. */
  function AreaFields(s: string): (r: Option<(int, int, int, int)>)
    ensures Colons(s) < 3 ==> r.None?
    ensures r.Some? ==> r.value.0 >= 0 && r.value.1 >= 0 && r.value.2 >= 0 && r.value.3 >= 0
  {
    var f1 :- SplitColon(s);
    var xmin := Component(f1.0);
    if xmin < 0 then None
    else
      var f2 :- SplitColon(f1.1);
      var ymin := Component(f2.0);
      if ymin < 0 then None
      else
        var f3 :- SplitColon(f2.1);
        var xmax := Component(f3.0);
        if xmax < 0 then None
        else
          var ymax := Component(f3.1);
          if ymax < 0 then None
          else Some((xmin, ymin, xmax, ymax))
  }

  /** Corners swapped into order; an empty width or height is refused. */
  function OrderArea(xmin: int, ymin: int, xmax: int, ymax: int): (r: Option<Area>)
    ensures r.Some? <==> xmin != xmax && ymin != ymax
    ensures r.Some? ==> r.value.xmin < r.value.xmax && r.value.ymin < r.value.ymax
    ensures r.Some? ==> {r.value.xmin, r.value.xmax} == {xmin, xmax} && {r.value.ymin, r.value.ymax} == {ymin, ymax}
  {
    var (x0, x1) := if xmin > xmax then (xmax, xmin) else (xmin, xmax);
    var (y0, y1) := if ymin > ymax then (ymax, ymin) else (ymin, ymax);
    if x1 == x0 || y1 == y0 then None
    else Some(Area(x0, y0, x1, y1))
  }

  /** ParseAreaParam: "xmin:ymin:xmax:ymax", every field non-negative,
      bounds reordered, and a flat rectangle refused. */
  function ParseAreaParam(s: string): (r: Option<Area>)
    ensures Colons(s) < 3 ==> r.None?
    ensures r.Some? ==> 0 <= r.value.xmin < r.value.xmax && 0 <= r.value.ymin < r.value.ymax
  {
    var f :- AreaFields(s);
    OrderArea(f.0, f.1, f.2, f.3)
  }

  /** Any negative field makes the parse fail. */
  lemma NegativeFieldFails(a: int, b: int, c: int, d: int)
    requires -TwoTo31 <= a < TwoTo31 && -TwoTo31 <= b < TwoTo31
    requires -TwoTo31 <= c < TwoTo31 && -TwoTo31 <= d < TwoTo31
    requires a < 0 || b < 0 || c < 0 || d < 0
    ensures ParseAreaParam(AreaText(a, b, c, d)) == None
  {
    AreaTextFields(a, b, c, d);
  }

  /** `x` and `rest` separated by one ':'. */
  function Join(x: string, rest: string): string {
    x + ":" + rest
  }

  /** The text "a:b:c:d" in decimal. */
  function AreaText(a: int, b: int, c: int, d: int): string {
    Join(Decimal(a), Join(Decimal(b), Join(Decimal(c), Decimal(d))))
  }

  lemma DecimalHasNoColon(i: int)
    ensures ':' !in Decimal(i)
  {
    var t := if i < 0 then NatDigits(-i) else NatDigits(i);
    assert forall k | 0 <= k < |t| :: t[k] != ':';
  }

  lemma SplitBeforeColon(x: string, rest: string)
    requires ':' !in x
    ensures SplitColon(Join(x, rest)) == Some((x, rest))
  {
    var s := Join(x, rest);
    var r := SplitColon(s);
    assert s[|x|] == ':';
    assert forall k | 0 <= k < |x| :: s[k] == x[k];
    assert r.Some?;
    var p := |r.value.0|;
    assert s[..p] == r.value.0;
    assert p == |x|;
    assert s[..|x|] == x && s[|x| + 1..] == rest;
  }

  /** The three splits and four conversions of a printed area. */
  lemma AreaTextFields(a: int, b: int, c: int, d: int)
    requires -TwoTo31 <= a < TwoTo31 && -TwoTo31 <= b < TwoTo31
    requires -TwoTo31 <= c < TwoTo31 && -TwoTo31 <= d < TwoTo31
    ensures SplitColon(AreaText(a, b, c, d)) == Some((Decimal(a), Join(Decimal(b), Join(Decimal(c), Decimal(d)))))
    ensures SplitColon(Join(Decimal(b), Join(Decimal(c), Decimal(d)))) == Some((Decimal(b), Join(Decimal(c), Decimal(d))))
    ensures SplitColon(Join(Decimal(c), Decimal(d))) == Some((Decimal(c), Decimal(d)))
    ensures Component(Decimal(a)) == a && Component(Decimal(b)) == b
    ensures Component(Decimal(c)) == c && Component(Decimal(d)) == d
  {
    DecimalHasNoColon(a);
    DecimalHasNoColon(b);
    DecimalHasNoColon(c);
    StrtolDecimal(a);
    StrtolDecimal(b);
    StrtolDecimal(c);
    StrtolDecimal(d);
    SplitBeforeColon(Decimal(a), Join(Decimal(b), Join(Decimal(c), Decimal(d))));
    SplitBeforeColon(Decimal(b), Join(Decimal(c), Decimal(d)));
    SplitBeforeColon(Decimal(c), Decimal(d));
  }

  /** Printing four non-negative ints as "a:b:c:d" and parsing them back
      gives the rectangle they span, corners reordered; it fails exactly
      when the rectangle is flat. */
  lemma AreaRoundTrip(a: int, b: int, c: int, d: int)
    requires 0 <= a < TwoTo31 && 0 <= b < TwoTo31 && 0 <= c < TwoTo31 && 0 <= d < TwoTo31
    ensures a != c && b != d ==>
              ParseAreaParam(AreaText(a, b, c, d)) ==
                Some(Area(if a < c then a else c, if b < d then b else d,
                          if a < c then c else a, if b < d then d else b))
    ensures a == c || b == d ==> ParseAreaParam(AreaText(a, b, c, d)) == None
  {
    FieldsOfAreaText(a, b, c, d);
  }

  /** The four fields of a printed area are the printed numbers. */
  lemma FieldsOfAreaText(a: int, b: int, c: int, d: int)
    requires 0 <= a < TwoTo31 && 0 <= b < TwoTo31 && 0 <= c < TwoTo31 && 0 <= d < TwoTo31
    ensures AreaFields(AreaText(a, b, c, d)) == Some((a, b, c, d))
  {
    AreaTextFields(a, b, c, d);
    var rb := Join(Decimal(b), Join(Decimal(c), Decimal(d)));
    var rc := Join(Decimal(c), Decimal(d));
    FieldsOfSplits(AreaText(a, b, c, d), Decimal(a), rb, Decimal(b), rc, Decimal(c), Decimal(d));
  }

  /** Three successful splits into non-negative components are the four
      fields. */
  lemma FieldsOfSplits(s: string, x1: string, r1: string, x2: string, r2: string, x3: string, r3: string)
    requires SplitColon(s) == Some((x1, r1))
    requires SplitColon(r1) == Some((x2, r2))
    requires SplitColon(r2) == Some((x3, r3))
    requires Component(x1) >= 0 && Component(x2) >= 0 && Component(x3) >= 0 && Component(r3) >= 0
    ensures AreaFields(s) == Some((Component(x1), Component(x2), Component(x3), Component(r3)))
  {
  }

  // ---------------------------------------------------------------------
  // ParseAlgoParam

  /** The command-line spelling of a line ordering. */
  function DirectionName(d: LineOrder.Direction): string {
    match d
    case LRTB => "LRTB" case LRBT => "LRBT" case RLTB => "RLTB" case RLBT => "RLBT"
    case TBLR => "TBLR" case TBRL => "TBRL" case BTLR => "BTLR" case BTRL => "BTRL"
  }

  /** The ordering a spelling names, compared in the source's order. */
  function NamedDirection(name: string): (r: Option<LineOrder.Direction>)
    ensures r.Some? ==> DirectionName(r.value) == name
    ensures r.None? ==> forall d: LineOrder.Direction :: DirectionName(d) != name
  {
    if name == "LRTB" then Some(LineOrder.LRTB)
    else if name == "LRBT" then Some(LineOrder.LRBT)
    else if name == "RLTB" then Some(LineOrder.RLTB)
    else if name == "RLBT" then Some(LineOrder.RLBT)
    else if name == "TBLR" then Some(LineOrder.TBLR)
    else if name == "TBRL" then Some(LineOrder.TBRL)
    else if name == "BTLR" then Some(LineOrder.BTLR)
    else if name == "BTRL" then Some(LineOrder.BTRL)
    else None
  }

  /** ParseAlgoParam: plain line orderings first, then snaking ones, then
      the two spirals, and line LRTB by default. The parameters are
      appended to `params`. */
  function ParseAlgoParam(line: string, lineSnake: string, spiralTrigo: bool, spiralInverse: bool,
                          params: seq<int>): (r: (string, seq<int>))
    ensures |params| < |r.1| && r.1[..|params|] == params
    ensures |r.1| == |params| + 2 <==> NamedDirection(line).None? && NamedDirection(lineSnake).Some?
    ensures r.0 == "Spiral" <==>
              NamedDirection(line).None? && NamedDirection(lineSnake).None? && (spiralTrigo || spiralInverse)
    ensures r.0 == "Line" || r.0 == "Spiral"
  {
    AlgoOf(NamedDirection(line), NamedDirection(lineSnake), spiralTrigo, spiralInverse, params)
  }

  /** The choice of ParseAlgoParam once both spellings are looked up:
      `plain` is the ordering named by the line option, `snaking` the one
      named by the snake option. */
  function AlgoOf(plain: Option<LineOrder.Direction>, snaking: Option<LineOrder.Direction>,
                  spiralTrigo: bool, spiralInverse: bool, params: seq<int>): (r: (string, seq<int>))
    ensures |params| < |r.1| && r.1[..|params|] == params
    ensures |r.1| == |params| + 2 <==> plain.None? && snaking.Some?
    ensures r.0 == "Spiral" <==> plain.None? && snaking.None? && (spiralTrigo || spiralInverse)
    ensures r.0 == "Line" || r.0 == "Spiral"
  {
    match plain
    case Some(d) => ("Line", params + [LineOrder.Code(d)])
    case None =>
      match snaking
      case Some(d) => ("Line", params + [LineOrder.Code(d), LineOrder.SnakeCode])
      case None =>
        if spiralTrigo then ("Spiral", params + [Spiral.Trigo])
        else if spiralInverse then ("Spiral", params + [Spiral.NonTrigo])
        else ("Line", params + [LineOrder.Code(LineOrder.LRTB)])
  }

  /** The executor hands parameter i to SetAdditionalParameters(i, params[i]). */
  function ConfigureLine(m: LineOrder.LineManager, params: seq<int>): Result<LineOrder.LineManager>
    decreases |params|
  {
    if params == [] then Success(m)
    else
      var m2 :- ConfigureLine(m, params[..|params| - 1]);
      LineOrder.SetAdditionalParameters(m2, |params| - 1, params[|params| - 1])
  }

  function ConfigureSpiral(m: Spiral.SpiralManager, params: seq<int>): Result<Spiral.SpiralManager>
    decreases |params|
  {
    if params == [] then Success(m)
    else
      var m2 :- ConfigureSpiral(m, params[..|params| - 1]);
      Spiral.SetAdditionalParameters(m2, |params| - 1, params[|params| - 1])
  }

  /** The ordering the command line asks for. */
  function RequestedDirection(line: string, lineSnake: string): LineOrder.Direction {
    RequestedOf(NamedDirection(line), NamedDirection(lineSnake))
  }

  function RequestedOf(plain: Option<LineOrder.Direction>, snaking: Option<LineOrder.Direction>): LineOrder.Direction {
    match plain
    case Some(d) => d
    case None => snaking.GetOr(LineOrder.LRTB)
  }

  /** The parameters ParseAlgoParam produces, given to a fresh task
      manager, configure exactly the requested ordering: the named line
      direction with snaking iff the snake option chose it, or the spiral
      sense. */
  lemma ChosenOrderingIsConfigured(line: string, lineSnake: string, spiralTrigo: bool, spiralInverse: bool)
    ensures var (algorithm, ps) := ParseAlgoParam(line, lineSnake, spiralTrigo, spiralInverse, []);
            algorithm == "Line" ==>
              && ConfigureLine(LineOrder.NewLineManager, ps).Success?
              && LineOrder.DirectionOf(ConfigureLine(LineOrder.NewLineManager, ps).value.readingDir)
                   == RequestedDirection(line, lineSnake)
              && ((ConfigureLine(LineOrder.NewLineManager, ps).value.snake != 0)
                  == (NamedDirection(line).None? && NamedDirection(lineSnake).Some?))
    ensures var (algorithm, ps) := ParseAlgoParam(line, lineSnake, spiralTrigo, spiralInverse, []);
            algorithm == "Spiral" ==>
              && ConfigureSpiral(Spiral.NewSpiralManager, ps).Success?
              && ConfigureSpiral(Spiral.NewSpiralManager, ps).value.spiralDir
                   == (if spiralTrigo then Spiral.Trigo else Spiral.NonTrigo)
  {
    ConfiguredOf(NamedDirection(line), NamedDirection(lineSnake), spiralTrigo, spiralInverse);
  }

  /** ChosenOrderingIsConfigured once both spellings are looked up. */
  lemma ConfiguredOf(plain: Option<LineOrder.Direction>, snaking: Option<LineOrder.Direction>,
                     spiralTrigo: bool, spiralInverse: bool)
    ensures var (algorithm, ps) := AlgoOf(plain, snaking, spiralTrigo, spiralInverse, []);
            algorithm == "Line" ==>
              && ConfigureLine(LineOrder.NewLineManager, ps).Success?
              && LineOrder.DirectionOf(ConfigureLine(LineOrder.NewLineManager, ps).value.readingDir)
                   == RequestedOf(plain, snaking)
              && ((ConfigureLine(LineOrder.NewLineManager, ps).value.snake != 0)
                  == (plain.None? && snaking.Some?))
    ensures var (algorithm, ps) := AlgoOf(plain, snaking, spiralTrigo, spiralInverse, []);
            algorithm == "Spiral" ==>
              && ConfigureSpiral(Spiral.NewSpiralManager, ps).Success?
              && ConfigureSpiral(Spiral.NewSpiralManager, ps).value.spiralDir
                   == (if spiralTrigo then Spiral.Trigo else Spiral.NonTrigo)
  {
    match plain
    case Some(d) => PlainConfigured(d);
    case None =>
      match snaking
      case Some(d) => SnakeConfigured(d);
      case None =>
        if spiralTrigo {
          SpiralConfigured(Spiral.Trigo);
        } else if spiralInverse {
          SpiralConfigured(Spiral.NonTrigo);
        } else {
          PlainConfigured(LineOrder.LRTB);
        }
  }

  /** One direction code configures that direction, without snaking. */
  lemma PlainConfigured(d: LineOrder.Direction)
    ensures ConfigureLine(LineOrder.NewLineManager, [LineOrder.Code(d)])
              == Success(LineOrder.NewLineManager.(readingDir := LineOrder.Code(d)))
    ensures LineOrder.DirectionOf(LineOrder.Code(d)) == d
    ensures LineOrder.NewLineManager.snake == 0
  {
    LineOrder.DirectionCodeRoundTrip(d);
    var m0, code := LineOrder.NewLineManager, LineOrder.Code(d);
    assert [code][..0] == [];
    assert ConfigureLine(m0, [code][..0]) == Success(m0);
  }

  /** A direction code followed by the snake code configures that
      direction with snaking. */
  lemma SnakeConfigured(d: LineOrder.Direction)
    ensures ConfigureLine(LineOrder.NewLineManager, [LineOrder.Code(d), LineOrder.SnakeCode])
              == Success(LineOrder.NewLineManager.(readingDir := LineOrder.Code(d), snake := LineOrder.SnakeCode))
    ensures LineOrder.DirectionOf(LineOrder.Code(d)) == d
    ensures LineOrder.SnakeCode != 0
  {
    PlainConfigured(d);
    var ps := [LineOrder.Code(d), LineOrder.SnakeCode];
    assert ps[..1] == [LineOrder.Code(d)];
  }

  /** One sense parameter configures that spiral sense. */
  lemma SpiralConfigured(v: int)
    ensures ConfigureSpiral(Spiral.NewSpiralManager, [v]) == Success(Spiral.SpiralManager(v))
  {
    assert [v][..0] == [];
  }
}
