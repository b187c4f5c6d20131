/** The older line-band task manager (raytracers/OldTaskManager): every
    camera image is rendered line by line; lines still to do are kept in a
    rotating queue, and a committed band is copied into the image. */
module BandQueue {
  import opened Wrappers

  /** What the manager needs from a camera: its image size in pixels and channels. */
  datatype Camera = Camera(width: nat, height: nat, channels: nat)

  /** The manager state. `raster` is the current image (all channels of all
      pixels, row by row); it is empty when every camera is done. */
  datatype TaskManager = TaskManager(
    cameras: seq<Camera>,
    xmin: nat, xmax: nat, ymin: nat, ymax: nat,
    currentCamera: int,
    lines: seq<nat>,
    sizeOfBand: nat,
    raster: seq<real>)

  /** workFinished: every camera has been processed. */
  predicate WorkFinished(tm: TaskManager) {
    tm.currentCamera >= |tm.cameras|
  }

  /** The lines ymin .. ymax, both included. */
  function LineRange(ymin: nat, ymax: nat): (r: seq<nat>)
    ensures |r| == if ymax >= ymin then ymax - ymin + 1 else 0
    ensures forall k | 0 <= k < |r| :: r[k] == ymin + k
    decreases ymax + 1 - ymin
  {
    if ymin > ymax then [] else [ymin] + LineRange(ymin + 1, ymax)
  }

  /** The range holds exactly the lines from ymin to ymax. */
  lemma LineRangeMembers(ymin: nat, ymax: nat)
    ensures forall y: nat :: y in LineRange(ymin, ymax) <==> ymin <= y <= ymax
  {
    var lines := LineRange(ymin, ymax);
    forall y: nat | ymin <= y <= ymax ensures y in lines {
      assert lines[y - ymin] == y;
    }
  }

  /** initCamera: switch to camera `n`; unless all cameras are done, queue
      its lines and start a cleared image whose bands are width*channels
      values long. */
  function InitCamera(tm: TaskManager, n: int): (r: TaskManager)
    requires n >= 0
    ensures r.currentCamera == n
    ensures n >= |tm.cameras| ==> WorkFinished(r) && r.lines == [] && r.raster == []
    ensures n < |tm.cameras| ==>
      && (forall y: nat :: y in r.lines <==> tm.ymin <= y <= tm.ymax)
      && r.sizeOfBand == tm.cameras[n].width * tm.cameras[n].channels
      && |r.raster| == r.sizeOfBand * tm.cameras[n].height
      && (forall k | 0 <= k < |r.raster| :: r.raster[k] == 0.0)
    ensures r.cameras == tm.cameras && r.xmin == tm.xmin && r.xmax == tm.xmax
    ensures r.ymin == tm.ymin && r.ymax == tm.ymax
  {
    var cleared := tm.(currentCamera := n, lines := [], raster := []);
    if WorkFinished(cleared) then cleared
    else
      var cam := tm.cameras[n];
      var band := cam.width * cam.channels;
      var lines := LineRange(tm.ymin, tm.ymax);
      LineRangeMembers(tm.ymin, tm.ymax);
      cleared.(lines := lines, sizeOfBand := band,
               raster := seq(band * cam.height, _ => 0.0))
  }

  /** The constructor starts with camera 0. */
  function NewTaskManager(cameras: seq<Camera>, xmin: nat, xmax: nat, ymin: nat, ymax: nat): (r: TaskManager)
    ensures r.currentCamera == 0 && r.cameras == cameras
  {
    InitCamera(TaskManager(cameras, xmin, xmax, ymin, ymax, 0, [], 0, []), 0)
  }

  /** The answer of nextBand: camera, line and band size. */
  datatype Band = Band(camera: int, line: nat, size: nat)

  /** nextBand: nothing once the work is finished; otherwise the front line,
      which moves to the back of the queue so that a lost band is handed out
      again later. */
  function NextBand(tm: TaskManager): (r: (Option<Band>, TaskManager))
    requires !WorkFinished(tm) ==> |tm.lines| > 0
    ensures r.0.None? <==> WorkFinished(tm)
    ensures r.0.Some? ==>
      && r.0.value == Band(tm.currentCamera, tm.lines[0], tm.sizeOfBand)
      && r.1.lines == tm.lines[1..] + [tm.lines[0]]
      && multiset(r.1.lines) == multiset(tm.lines)
      && r.1 == tm.(lines := r.1.lines)
    ensures r.0.None? ==> r.1 == tm
  {
    if WorkFinished(tm) then (None, tm)
    else
      var line := tm.lines[0];
      assert tm.lines == [line] + tm.lines[1..];
      (Some(Band(tm.currentCamera, line, tm.sizeOfBand)), tm.(lines := tm.lines[1..] + [line]))
  }

  /** The queue after the first occurrence of `line` is erased. */
  function RemoveFirst(lines: seq<nat>, line: int): (r: seq<nat>)
    ensures line in lines ==> multiset(r) == multiset(lines) - multiset{line as nat}
    ensures line !in lines ==> r == lines
    ensures |r| == if line in lines then |lines| - 1 else |lines|
  {
    if lines == [] then []
    else if lines[0] == line then
      assert lines == [lines[0]] + lines[1..];
      lines[1..]
    else
      assert lines == [lines[0]] + lines[1..];
      [lines[0]] + RemoveFirst(lines[1..], line)
  }

  /** Only the first occurrence goes: the part before it is kept as is. */
  lemma {:induction false} RemoveFirstKeepsPrefix(lines: seq<nat>, line: int, i: nat)
    requires i < |lines| && lines[i] == line && line !in lines[..i]
    ensures RemoveFirst(lines, line) == lines[..i] + lines[i + 1..]
  {
    if i == 0 {
      assert RemoveFirst(lines, line) == lines[1..];
      assert lines[..0] + lines[1..] == lines[1..];
    } else {
      var t := lines[1..];
      assert lines[..i][0] == lines[0] && lines[..i][1..] == t[..i - 1];
      assert lines[0] != line;
      assert line !in t[..i - 1];
      RemoveFirstKeepsPrefix(t, line, i - 1);
      assert RemoveFirst(lines, line) == [lines[0]] + RemoveFirst(t, line);
      ConsSlices(lines, i);
    }
  }

  /** Putting the head back in front of the tail's two slices around
      position i - 1. */
  lemma ConsSlices(lines: seq<nat>, i: nat)
    requires 0 < i < |lines|
    ensures [lines[0]] + (lines[1..][..i - 1] + lines[1..][i..]) == lines[..i] + lines[i + 1..]
  {
    assert lines[..i] == [lines[0]] + lines[1..][..i - 1];
    assert lines[i + 1..] == lines[1..][i..];
  }

  /** The raster with `band[..count]` copied at offset `off` (memcpy). */
  function CopyInto(raster: seq<real>, band: seq<real>, off: nat, count: nat): (r: seq<real>)
    requires off + count <= |raster| && count <= |band|
    ensures |r| == |raster|
    ensures forall k | 0 <= k < |r| :: r[k] == if off <= k < off + count then band[k - off] else raster[k]
  {
    raster[..off] + band[..count] + raster[off + count..]
  }

  /** The precondition of updateImage's memcpy: the copied columns lie in the band and the image. */
  predicate CopyFits(tm: TaskManager, band: seq<real>, line: nat)
    requires !WorkFinished(tm) && tm.currentCamera >= 0
  {
    var ch := tm.cameras[tm.currentCamera].channels;
    && tm.xmin <= tm.xmax
    && (tm.xmax - tm.xmin) * ch <= |band|
    && tm.sizeOfBand * line + tm.xmin * ch + (tm.xmax - tm.xmin) * ch <= |tm.raster|
  }

  /** updateImage: copy columns xmin .. xmax-1 of the band into image line
      `line`, then erase the first queued occurrence of that line. Progress
      output and periodic saving are left out. */
  function UpdateImage(tm: TaskManager, band: seq<real>, line: nat): (r: TaskManager)
    requires !WorkFinished(tm) && tm.currentCamera >= 0 && CopyFits(tm, band, line)
    ensures r.lines == RemoveFirst(tm.lines, line)
    ensures |r.raster| == |tm.raster|
    ensures var ch := tm.cameras[tm.currentCamera].channels;
            var off := tm.sizeOfBand * line + tm.xmin * ch;
            forall k | 0 <= k < |r.raster| ::
              r.raster[k] == if off <= k < off + (tm.xmax - tm.xmin) * ch then band[k - off] else tm.raster[k]
    ensures r == tm.(raster := r.raster, lines := r.lines)
  {
    var ch := tm.cameras[tm.currentCamera].channels;
    var off := tm.sizeOfBand * line + tm.xmin * ch;
    tm.(raster := CopyInto(tm.raster, band, off, (tm.xmax - tm.xmin) * ch),
        lines := RemoveFirst(tm.lines, line))
  }

  /** commitBand: a band of another camera is dismissed as accepted; a
      wrong size or a line outside the image is refused; otherwise the band
      is copied and, once no line is left, the next camera starts. */
  function CommitBand(tm: TaskManager, band: seq<real>, camera: int, line: int, size: int): (r: (bool, TaskManager))
    requires tm.currentCamera >= 0
    requires camera == tm.currentCamera ==> !WorkFinished(tm)
    requires (camera == tm.currentCamera && size == tm.sizeOfBand
              && 0 <= line < tm.cameras[tm.currentCamera].height) ==> CopyFits(tm, band, line)
    ensures camera != tm.currentCamera ==> r == (true, tm)
    ensures camera == tm.currentCamera
            && (size != tm.sizeOfBand || line < 0 || line >= tm.cameras[tm.currentCamera].height)
            ==> r == (false, tm)
    ensures r.0 && camera == tm.currentCamera ==>
      var u := UpdateImage(tm, band, line);
      r.1 == if u.lines == [] then InitCamera(u, tm.currentCamera + 1) else u
  {
    if camera != tm.currentCamera then (true, tm)
    else if tm.sizeOfBand != size || line < 0 || line >= tm.cameras[tm.currentCamera].height then (false, tm)
    else
      var u := UpdateImage(tm, band, line);
      if u.lines == [] then (true, InitCamera(u, tm.currentCamera + 1)) else (true, u)
  }

  /** Committing the last queued line of a camera moves on to the next camera. */
  lemma LastLineAdvancesCamera(tm: TaskManager, band: seq<real>, line: nat)
    requires tm.currentCamera >= 0 && !WorkFinished(tm)
    requires tm.lines == [line] && line < tm.cameras[tm.currentCamera].height
    requires CopyFits(tm, band, line)
    ensures CommitBand(tm, band, tm.currentCamera, line, tm.sizeOfBand).0
    ensures CommitBand(tm, band, tm.currentCamera, line, tm.sizeOfBand).1.currentCamera
         == tm.currentCamera + 1
  {
    assert RemoveFirst(tm.lines, line) == [];
  }
}
