/**
 * The mask decoder and the two selection toggles of the layer-information panel
 * (my-app/src/components/LayerInfo.js).
 *
 * `decodeRLE` fills a row-major `height * width` grid of 0/1 cells from a flat list of
 * `(start, length)` pairs and then scans the grid once for the tightest box around
 * the foreground. The panel keeps two selections: a thickness and a flake index.
 */
module LayerInfo {
  import opened Wrappers

  /** One foreground run: `length` cells starting at the flattened offset `start`. */
  datatype Run = Run(start: int, length: int)

  /** The `{x, y, width, height}` object `decodeRLE` returns. */
  datatype BoundingBox = BoundingBox(x: int, y: int, width: int, height: int) {
    /** The rightmost column and the bottom row the box covers. */
    function Right(): int { x + width - 1 }
    function Bottom(): int { y + height - 1 }
  }

  /** The runs of a flat `[start, length, start, length, ...]` list. A trailing odd
      element has an undefined length and contributes nothing. */
  function Runs(rle: seq<int>): (runs: seq<Run>)
    ensures 2 * |runs| <= |rle| <= 2 * |runs| + 1
  {
    if |rle| < 2 then [] else [Run(rle[0], rle[1])] + Runs(rle[2..])
  }

  /** Run `k` is the pair at positions `2k` and `2k + 1`; a trailing odd element is no run. */
  lemma {:induction false} RunAt(rle: seq<int>, k: nat)
    requires 2 * k + 1 < |rle|
    ensures k < |Runs(rle)| && Runs(rle)[k] == Run(rle[2 * k], rle[2 * k + 1])
  {
    if k > 0 {
      var rest := rle[2..];
      RunAt(rest, k - 1);
      assert rest[2 * (k - 1)] == rle[2 * k] && rest[2 * (k - 1) + 1] == rle[2 * k + 1];
    }
  }

  ghost predicate InRun(r: Run, i: int) {
    r.start <= i < r.start + r.length
  }

  /** Cell `i` lies in some run of `runs`. */
  ghost predicate Covered(runs: seq<Run>, i: int) {
    exists k :: 0 <= k < |runs| && InRun(runs[k], i)
  }

  /** The grid of `n` cells that the runs paint: 1 inside some run, 0 elsewhere. */
  ghost function Decoded(runs: seq<Run>, n: nat): (m: seq<int>) {
    seq(n, i => if Covered(runs, i) then 1 else 0)
  }

  function Min(a: int, b: int): int { if a <= b then a else b }

  function Max(a: int, b: int): int { if a >= b then a else b }

  lemma CoveredSnoc(runs: seq<Run>, r: Run, i: int)
    ensures Covered(runs + [r], i) <==> Covered(runs, i) || InRun(r, i)
  {
    var s := runs + [r];
    if Covered(runs, i) {
      var k :| 0 <= k < |runs| && InRun(runs[k], i);
      assert s[k] == runs[k];
    }
    if InRun(r, i) {
      assert s[|runs|] == r;
    }
  }

  /** The grid `m` with the cells `start .. start + length - 1` that lie inside it set to 1. */
  ghost function Overlay(m: seq<int>, start: int, length: int): (r: seq<int>)
    ensures |r| == |m|
  {
    seq(|m|, c requires 0 <= c < |m| => if start <= c < start + length then 1 else m[c])
  }

  /** Painting a run over the decoding of some runs decodes one run more. */
  lemma OverlayDecoded(done: seq<Run>, r: Run, n: nat)
    ensures Overlay(Decoded(done, n), r.start, r.length) == Decoded(done + [r], n)
  {
    forall c | 0 <= c < n
      ensures Overlay(Decoded(done, n), r.start, r.length)[c] == Decoded(done + [r], n)[c]
    {
      CoveredSnoc(done, r, c);
    }
  }

  /** The inner loop of the fill: the cells of one run that lie inside the grid are set
      to 1 and every other cell keeps its value. */
  method PaintRun(mask: array<int>, start: int, length: int)
    modifies mask
    ensures mask[..] == Overlay(old(mask[..]), start, length)
  {
    var j := 0;
    while j < length
      invariant 0 <= j <= Max(length, 0)
      invariant mask[..] == Overlay(old(mask[..]), start, j)
    {
      if 0 <= start + j < mask.Length {
        mask[start + j] := 1;
      }
      j := j + 1;
    }
  }

  /**
   * The mask-filling half of decodeRLE: a zeroed `height * width` grid, then every cell
   * of every run set to 1, pair by pair. A cell of a run that falls outside the grid is
   * skipped: in the source such a write lands beyond the array's end or on a negative
   * property name, where the scan never reads it.
   */
  method FillMask(rle: seq<int>, height: nat, width: nat) returns (mask: array<int>)
    ensures fresh(mask)
    ensures mask[..] == Decoded(Runs(rle), height * width)
  {
    var n := height * width;
    mask := new int[n](_ => 0);
    ghost var runs := Runs(rle);
    ghost var done: seq<Run> := [];
    assert mask[..] == Decoded(done, n);
    var i := 0;
    while i < |rle|
      invariant |done| <= |runs| && done == runs[..|done|]
      invariant i == 2 * |done| || (i == |rle| + 1 && done == runs)
      invariant mask.Length == n && mask[..] == Decoded(done, n)
    {
      var start := rle[i];
      // rle[i + 1] is undefined past the end: the inner loop then runs zero times
      var length := if i + 1 < |rle| then rle[i + 1] else 0;
      PaintRun(mask, start, length);
      if i + 1 < |rle| {
        var run := Run(start, length);
        RunAt(rle, |done|);
        assert runs[..|done| + 1] == done + [run];
        OverlayDecoded(done, run, n);
        done := done + [run];
      } else {
        assert mask[..] == Decoded(done, n);
      }
      i := i + 2;
    }
  }

  /** Cell `(x, y)` of a row-major grid with `height` rows of `width` cells is set. */
  ghost predicate Foreground(mask: seq<int>, height: nat, width: nat, x: int, y: int) {
    0 <= x < width && 0 <= y < height && y * width + x < |mask| && mask[y * width + x] == 1
  }

  ghost predicate HasForeground(mask: seq<int>, height: nat, width: nat) {
    exists x, y :: Foreground(mask, height, width, x, y)
  }

  /** Every foreground cell lies inside `b`. */
  ghost predicate Encloses(mask: seq<int>, height: nat, width: nat, b: BoundingBox) {
    forall x, y :: Foreground(mask, height, width, x, y) ==>
      b.x <= x <= b.Right() && b.y <= y <= b.Bottom()
  }

  /** Each of the four edges of `b` passes through some foreground cell. */
  ghost predicate TouchesEdges(mask: seq<int>, height: nat, width: nat, b: BoundingBox) {
    && (exists y :: Foreground(mask, height, width, b.x, y))
    && (exists y :: Foreground(mask, height, width, b.Right(), y))
    && (exists x :: Foreground(mask, height, width, x, b.y))
    && (exists x :: Foreground(mask, height, width, x, b.Bottom()))
  }

  /** The box the scan starts from and returns when no cell is set. */
  function EmptyBox(height: nat, width: nat): BoundingBox {
    BoundingBox(width, height, 1 - width, 1 - height)
  }

  /** `b` is what decodeRLE reports for `mask`: the tightest box around the foreground,
      lying inside the grid, or the degenerate box when there is no foreground. */
  ghost predicate IsBoxOf(mask: seq<int>, height: nat, width: nat, b: BoundingBox) {
    if HasForeground(mask, height, width) then
      && Encloses(mask, height, width, b)
      && TouchesEdges(mask, height, width, b)
      && 1 <= b.width && 1 <= b.height
      && 0 <= b.x && b.x + b.width <= width
      && 0 <= b.y && b.y + b.height <= height
    else
      b == EmptyBox(height, width)
  }

  lemma CellInGrid(height: nat, width: nat, x: nat, y: nat)
    requires x < width && y < height
    ensures y * width + x < height * width
  {
    calc {
      y * width + x;
    <
      y * width + width;
    ==
      (y + 1) * width;
    <=
      height * width;
    }
  }

  /** The grid as rows of cells, the view the scan's nested loops take of the flat mask. */
  ghost function Rows(mask: seq<int>, height: nat, width: nat): (g: seq<seq<int>>)
    ensures |g| == height && forall y :: 0 <= y < height ==> |g[y]| == width
  {
    seq(height, y => seq(width, x => if 0 <= y * width + x < |mask| then mask[y * width + x] else 0))
  }

  /** Set cell `(x, y)` of the rows `g` comes before the cursor `(cx, cy)` of a row-major scan. */
  ghost predicate Seen(g: seq<seq<int>>, cx: int, cy: int, x: int, y: int) {
    0 <= y < |g| && 0 <= x < |g[y]| && g[y][x] == 1 && (y < cy || (y == cy && x < cx))
  }

  /** The extremes `minX, minY, maxX, maxY` the scan keeps. */
  datatype Extent = Extent(minX: int, minY: int, maxX: int, maxY: int)

  /** A set cell on each edge of an extent: `(minX, yMinX)`, `(maxX, yMaxX)`,
      `(xMinY, minY)` and `(xMaxY, maxY)`. */
  datatype EdgeCells = EdgeCells(yMinX: int, yMaxX: int, xMinY: int, xMaxY: int)

  /** What the scan knows at cursor `(cx, cy)`: before the first set cell the extent is
      still the initial one; after it, the extent is the tightest one around the set
      cells seen. */
  ghost predicate ScanInv(g: seq<seq<int>>, height: nat, width: nat, cx: int, cy: int,
                          found: bool, e: Extent, w: EdgeCells) {
    if !found then
      e == Extent(width, height, 0, 0) && forall x, y :: !Seen(g, cx, cy, x, y)
    else
      && (forall x, y :: Seen(g, cx, cy, x, y) ==> e.minX <= x <= e.maxX && e.minY <= y <= e.maxY)
      && Seen(g, cx, cy, e.minX, w.yMinX) && Seen(g, cx, cy, e.maxX, w.yMaxX)
      && Seen(g, cx, cy, w.xMinY, e.minY) && Seen(g, cx, cy, w.xMaxY, e.maxY)
  }

  /** The extent after the set cell `(x, y)` joins it. */
  function Extend(e: Extent, x: int, y: int): Extent {
    Extent(Min(e.minX, x), Min(e.minY, y), Max(e.maxX, x), Max(e.maxY, y))
  }

  /** The edge cells after the set cell `(x, y)` joins the extent `e`: `(x, y)` becomes
      the witness of every edge it moves (of all four when it is the first set cell). */
  ghost function Rewitness(found: bool, e: Extent, w: EdgeCells, x: int, y: int): EdgeCells {
    EdgeCells(if !found || x < e.minX then y else w.yMinX,
              if !found || x > e.maxX then y else w.yMaxX,
              if !found || y < e.minY then x else w.xMinY,
              if !found || y > e.maxY then x else w.xMaxY)
  }

  /** A clear cell leaves the scan state as it is. */
  lemma ScanSkip(g: seq<seq<int>>, height: nat, width: nat, x: int, y: int,
                 found: bool, e: Extent, w: EdgeCells)
    requires 0 <= y < |g| && 0 <= x < |g[y]| && g[y][x] != 1
    requires ScanInv(g, height, width, x, y, found, e, w)
    ensures ScanInv(g, height, width, x + 1, y, found, e, w)
  {
    SeenStep(g, x, y);
    var next := x + 1;
    if !found {
      forall x', y' ensures !Seen(g, next, y, x', y') {
        assert !Seen(g, x, y, x', y');
      }
    } else {
      forall x', y' | Seen(g, next, y, x', y') ensures e.minX <= x' <= e.maxX && e.minY <= y' <= e.maxY {
        assert Seen(g, x, y, x', y');
      }
      assert Seen(g, next, y, e.minX, w.yMinX) && Seen(g, next, y, e.maxX, w.yMaxX);
      assert Seen(g, next, y, w.xMinY, e.minY) && Seen(g, next, y, w.xMaxY, e.maxY);
    }
  }

  /** A set cell extends the extent and may become the witness of some of its edges. */
  lemma ScanHit(g: seq<seq<int>>, height: nat, width: nat, x: int, y: int,
                found: bool, e: Extent, w: EdgeCells)
    requires 0 <= y < |g| && 0 <= x < |g[y]| && g[y][x] == 1 && |g[y]| == width && |g| == height
    requires ScanInv(g, height, width, x, y, found, e, w)
    ensures ScanInv(g, height, width, x + 1, y, true, Extend(e, x, y), Rewitness(found, e, w, x, y))
  {
    SeenStep(g, x, y);
    var next := x + 1;
    var e', w' := Extend(e, x, y), Rewitness(found, e, w, x, y);
    forall x', y' | Seen(g, next, y, x', y') ensures e'.minX <= x' <= e'.maxX && e'.minY <= y' <= e'.maxY {
      if !(x' == x && y' == y) {
        assert Seen(g, x, y, x', y');
      }
    }
    assert Seen(g, next, y, x, y);
    if found {
      assert Seen(g, next, y, e.minX, w.yMinX) && Seen(g, next, y, e.maxX, w.yMaxX);
      assert Seen(g, next, y, w.xMinY, e.minY) && Seen(g, next, y, w.xMaxY, e.maxY);
    }
    assert Seen(g, next, y, e'.minX, w'.yMinX) && Seen(g, next, y, e'.maxX, w'.yMaxX);
    assert Seen(g, next, y, w'.xMinY, e'.minY) && Seen(g, next, y, w'.xMaxY, e'.maxY);
  }

  /** Finishing a row moves the cursor to the start of the next one. */
  lemma ScanNextRow(g: seq<seq<int>>, height: nat, width: nat, y: int, found: bool, e: Extent, w: EdgeCells)
    requires 0 <= y < |g| && |g[y]| == width
    requires ScanInv(g, height, width, width, y, found, e, w)
    ensures ScanInv(g, height, width, 0, y + 1, found, e, w)
  {
    SeenRowDone(g, y);
    var below := y + 1;
    if !found {
      forall x', y' ensures !Seen(g, 0, below, x', y') {
        assert !Seen(g, width, y, x', y');
      }
    } else {
      forall x', y' | Seen(g, 0, below, x', y') ensures e.minX <= x' <= e.maxX && e.minY <= y' <= e.maxY {
        assert Seen(g, width, y, x', y');
      }
      assert Seen(g, 0, below, e.minX, w.yMinX) && Seen(g, 0, below, e.maxX, w.yMaxX);
      assert Seen(g, 0, below, w.xMinY, e.minY) && Seen(g, 0, below, w.xMaxY, e.maxY);
    }
  }

  /** The knowledge the scan carries: whether a set cell was met, and the extent. */
  datatype ScanState = ScanState(found: bool, extent: Extent)

  ghost predicate Grid(g: seq<seq<int>>, width: nat) {
    forall y :: 0 <= y < |g| ==> |g[y]| == width
  }

  /** The scan state once every cell before the cursor `(cx, cy)` has been visited in
      row-major order. */
  ghost function ScanUpTo(g: seq<seq<int>>, width: nat, cx: nat, cy: nat): ScanState
    requires Grid(g, width) && cx <= width && (cy < |g| || (cy == |g| && cx == 0))
    decreases cy, cx
  {
    if cx > 0 then
      var s := ScanUpTo(g, width, cx - 1, cy);
      if g[cy][cx - 1] == 1 then ScanState(true, Extend(s.extent, cx - 1, cy)) else s
    else if cy > 0 then
      ScanUpTo(g, width, width, cy - 1)
    else
      ScanState(false, Extent(width, |g|, 0, 0))
  }

  /** The scan state up to any cursor satisfies ScanInv, with witnesses for the edges. */
  lemma {:induction false} ScanUpToTight(g: seq<seq<int>>, width: nat, cx: nat, cy: nat) returns (w: EdgeCells)
    requires Grid(g, width) && cx <= width && (cy < |g| || (cy == |g| && cx == 0))
    ensures ScanInv(g, |g|, width, cx, cy, ScanUpTo(g, width, cx, cy).found, ScanUpTo(g, width, cx, cy).extent, w)
    decreases cy, cx
  {
    if cx > 0 {
      var x := cx - 1;
      var s := ScanUpTo(g, width, x, cy);
      var w0 := ScanUpToTight(g, width, x, cy);
      if g[cy][x] == 1 {
        ScanHit(g, |g|, width, x, cy, s.found, s.extent, w0);
        w := Rewitness(s.found, s.extent, w0, x, cy);
      } else {
        ScanSkip(g, |g|, width, x, cy, s.found, s.extent, w0);
        w := w0;
      }
    } else if cy > 0 {
      var above := cy - 1;
      var s := ScanUpTo(g, width, width, above);
      w := ScanUpToTight(g, width, width, above);
      ScanNextRow(g, |g|, width, above, s.found, s.extent, w);
    } else {
      w := EdgeCells(0, 0, 0, 0);
    }
  }

  /**
   * The scanning half of decodeRLE: one row-major pass over the grid that narrows
   * `minX, minY, maxX, maxY` (starting from `width, height, 0, 0`) over the set cells.
   */
  method ScanBoundingBox(mask: array<int>, height: nat, width: nat) returns (box: BoundingBox)
    requires mask.Length == height * width
    ensures IsBoxOf(mask[..], height, width, box)
  {
    ghost var g := Rows(mask[..], height, width);
    var minX, minY, maxX, maxY := width, height, 0, 0;
    ghost var found := false;
    var y := 0;
    while y < height
      invariant 0 <= y <= height
      invariant ScanState(found, Extent(minX, minY, maxX, maxY)) == ScanUpTo(g, width, 0, y)
    {
      var row := y * width;
      var x := 0;
      while x < width
        invariant 0 <= x <= width
        invariant ScanState(found, Extent(minX, minY, maxX, maxY)) == ScanUpTo(g, width, x, y)
      {
        RowsAt(mask[..], height, width, x, y, row);
        if mask[row + x] == 1 {
          minX := Min(minX, x);
          minY := Min(minY, y);
          maxX := Max(maxX, x);
          maxY := Max(maxY, y);
          found := true;
        }
        x := x + 1;
      }
      y := y + 1;
    }
    ScanFindsBox(mask[..], height, width);
    box := BoundingBox(minX, minY, maxX - minX + 1, maxY - minY + 1);
  }

  /** The extent of the completed scan is the bounding box of the mask. */
  lemma ScanFindsBox(mask: seq<int>, height: nat, width: nat)
    requires |mask| == height * width
    ensures var e := ScanUpTo(Rows(mask, height, width), width, 0, height).extent;
      IsBoxOf(mask, height, width, BoundingBox(e.minX, e.minY, e.maxX - e.minX + 1, e.maxY - e.minY + 1))
  {
    var g := Rows(mask, height, width);
    var s := ScanUpTo(g, width, 0, height);
    var w := ScanUpToTight(g, width, 0, height);
    ScanDone(mask, height, width, s.found, s.extent, w);
  }

  /** At the end of the scan the extent gives the box decodeRLE returns. */
  lemma ScanDone(mask: seq<int>, height: nat, width: nat, found: bool, e: Extent, w: EdgeCells)
    requires |mask| == height * width
    requires ScanInv(Rows(mask, height, width), height, width, 0, height, found, e, w)
    ensures IsBoxOf(mask, height, width, BoundingBox(e.minX, e.minY, e.maxX - e.minX + 1, e.maxY - e.minY + 1))
  {
    var g := Rows(mask, height, width);
    RowsAgree(mask, height, width);
    var b := BoundingBox(e.minX, e.minY, e.maxX - e.minX + 1, e.maxY - e.minY + 1);
    if found {
      assert Foreground(mask, height, width, e.minX, w.yMinX);
      assert Foreground(mask, height, width, e.maxX, w.yMaxX);
      assert Foreground(mask, height, width, w.xMinY, e.minY);
      assert Foreground(mask, height, width, w.xMaxY, e.maxY);
      assert b.Right() == e.maxX && b.Bottom() == e.maxY;
      forall x, y | Foreground(mask, height, width, x, y)
        ensures b.x <= x <= b.Right() && b.y <= y <= b.Bottom()
      {
        assert Seen(g, 0, height, x, y);
      }
    } else {
      forall x, y ensures !Foreground(mask, height, width, x, y) {
        assert !Seen(g, 0, height, x, y);
      }
    }
  }

  lemma RowsAt(mask: seq<int>, height: nat, width: nat, x: nat, y: nat, row: int)
    requires |mask| == height * width && x < width && y < height && row == y * width
    ensures row + x < |mask| && mask[row + x] == Rows(mask, height, width)[y][x]
  {
    CellInGrid(height, width, x, y);
  }

  lemma SeenStep(g: seq<seq<int>>, x: int, y: int)
    requires 0 <= y < |g| && 0 <= x < |g[y]|
    ensures forall x', y' :: Seen(g, x + 1, y, x', y') <==> Seen(g, x, y, x', y') || (x' == x && y' == y && g[y][x] == 1)
  {
  }

  lemma SeenRowDone(g: seq<seq<int>>, y: int)
    requires 0 <= y < |g|
    ensures forall x', y' :: Seen(g, |g[y]|, y, x', y') <==> Seen(g, 0, y + 1, x', y')
  {
  }

  lemma RowsAgree(mask: seq<int>, height: nat, width: nat)
    requires |mask| == height * width
    ensures forall x, y :: Foreground(mask, height, width, x, y) <==> Seen(Rows(mask, height, width), 0, height, x, y)
  {
  }

  /** decodeRLE: the bounding box of the mask the RLE pairs paint over a `height * width` grid. */
  method DecodeRLE(rle: seq<int>, height: nat, width: nat) returns (box: BoundingBox)
    ensures IsBoxOf(Decoded(Runs(rle), height * width), height, width, box)
  {
    var mask := FillMask(rle, height, width);
    box := ScanBoundingBox(mask, height, width);
  }

  /** The box is determined by the mask: two boxes that both satisfy IsBoxOf are equal. */
  lemma BoxUnique(mask: seq<int>, height: nat, width: nat, b1: BoundingBox, b2: BoundingBox)
    requires IsBoxOf(mask, height, width, b1) && IsBoxOf(mask, height, width, b2)
    ensures b1 == b2
  {
    if HasForeground(mask, height, width) {
      var y1 :| Foreground(mask, height, width, b1.x, y1);
      var y2 :| Foreground(mask, height, width, b2.x, y2);
      var y3 :| Foreground(mask, height, width, b1.Right(), y3);
      var y4 :| Foreground(mask, height, width, b2.Right(), y4);
      var x1 :| Foreground(mask, height, width, x1, b1.y);
      var x2 :| Foreground(mask, height, width, x2, b2.y);
      var x3 :| Foreground(mask, height, width, x3, b1.Bottom());
      var x4 :| Foreground(mask, height, width, x4, b2.Bottom());
    }
  }

  /** Only which runs occur matters, not their order or repetition. */
  lemma RunOrderIrrelevant(runs1: seq<Run>, runs2: seq<Run>, n: nat)
    requires forall r :: r in runs1 <==> r in runs2
    ensures Decoded(runs1, n) == Decoded(runs2, n)
  {
    forall i | 0 <= i < n ensures Covered(runs1, i) <==> Covered(runs2, i) {
      if Covered(runs1, i) {
        var k :| 0 <= k < |runs1| && InRun(runs1[k], i);
        assert runs1[k] in runs2;
        var l :| 0 <= l < |runs2| && runs2[l] == runs1[k];
      }
      if Covered(runs2, i) {
        var k :| 0 <= k < |runs2| && InRun(runs2[k], i);
        assert runs2[k] in runs1;
        var l :| 0 <= l < |runs1| && runs1[l] == runs2[k];
      }
    }
  }

  /** A permutation of the RLE pairs decodes to the same mask. */
  lemma PermutedPairsDecodeAlike(rle1: seq<int>, rle2: seq<int>, n: nat)
    requires multiset(Runs(rle1)) == multiset(Runs(rle2))
    ensures Decoded(Runs(rle1), n) == Decoded(Runs(rle2), n)
  {
    forall r ensures r in Runs(rle1) <==> r in Runs(rle2) {
      assert r in Runs(rle1) <==> r in multiset(Runs(rle1));
      assert r in Runs(rle2) <==> r in multiset(Runs(rle2));
    }
    RunOrderIrrelevant(Runs(rle1), Runs(rle2), n);
  }

  /** The number of set cells of a grid. */
  ghost function ForegroundCount(mask: seq<int>): nat {
    |set i | 0 <= i < |mask| && mask[i] == 1|
  }

  function TotalLength(runs: seq<Run>): int {
    if runs == [] then 0 else runs[0].length + TotalLength(runs[1..])
  }

  /** Every run has a non-negative length and lies inside the `n` cells of the grid. */
  ghost predicate InsideGrid(runs: seq<Run>, n: nat) {
    forall k :: 0 <= k < |runs| ==>
      0 <= runs[k].start && 0 <= runs[k].length && runs[k].start + runs[k].length <= n
  }

  /** No cell lies in two different runs. */
  ghost predicate PairwiseDisjoint(runs: seq<Run>) {
    forall k, l, i :: 0 <= k < l < |runs| && InRun(runs[k], i) ==> !InRun(runs[l], i)
  }

  /** The cells of one run. */
  ghost function Cells(r: Run): set<int> {
    set i | r.start <= i < r.start + r.length && InRun(r, i)
  }

  lemma {:induction false} CellsSize(r: Run)
    requires 0 <= r.length
    decreases r.length
    ensures |Cells(r)| == r.length
  {
    if r.length > 0 {
      var shorter := Run(r.start, r.length - 1);
      assert shorter.length < r.length;
      CellsSize(shorter);
      assert Cells(r) == Cells(shorter) + {r.start + r.length - 1};
    }
  }

  /** The covered cells of a grid of `n` cells. */
  ghost function CoveredCells(runs: seq<Run>, n: nat): set<int> {
    set i | 0 <= i < n && Covered(runs, i)
  }

  lemma CoveredCons(runs: seq<Run>, i: int)
    requires runs != []
    ensures Covered(runs, i) <==> InRun(runs[0], i) || Covered(runs[1..], i)
  {
    var rest := runs[1..];
    if Covered(runs, i) {
      var k :| 0 <= k < |runs| && InRun(runs[k], i);
      if k > 0 { assert rest[k - 1] == runs[k]; }
    }
    if Covered(rest, i) {
      var k :| 0 <= k < |rest| && InRun(rest[k], i);
      assert runs[k + 1] == rest[k];
    }
  }

  lemma TailKeepsShape(runs: seq<Run>, n: nat)
    requires runs != [] && InsideGrid(runs, n) && PairwiseDisjoint(runs)
    ensures InsideGrid(runs[1..], n) && PairwiseDisjoint(runs[1..])
    ensures forall i :: InRun(runs[0], i) ==> !Covered(runs[1..], i)
  {
    var rest := runs[1..];
    forall k | 0 <= k < |rest|
      ensures 0 <= rest[k].start && 0 <= rest[k].length && rest[k].start + rest[k].length <= n
    {
      assert rest[k] == runs[k + 1];
    }
    forall k, l, i | 0 <= k < l < |rest| && InRun(rest[k], i) ensures !InRun(rest[l], i) {
      assert rest[k] == runs[k + 1] && rest[l] == runs[l + 1];
    }
    forall i, k | InRun(runs[0], i) && 0 <= k < |rest| ensures !InRun(rest[k], i) {
      assert rest[k] == runs[k + 1];
    }
  }

  lemma {:induction false} CoveredCount(runs: seq<Run>, n: nat)
    requires InsideGrid(runs, n) && PairwiseDisjoint(runs)
    ensures |CoveredCells(runs, n)| == TotalLength(runs)
  {
    if runs == [] {
      assert CoveredCells(runs, n) == {};
    } else {
      var r, rest := runs[0], runs[1..];
      TailKeepsShape(runs, n);
      CoveredCount(rest, n);
      assert 0 <= r.start && 0 <= r.length && r.start + r.length <= n;
      forall i ensures i in CoveredCells(runs, n) <==> i in Cells(r) + CoveredCells(rest, n) {
        CoveredCons(runs, i);
      }
      assert CoveredCells(runs, n) == Cells(r) + CoveredCells(rest, n);
      assert Cells(r) * CoveredCells(rest, n) == {};
      CellsSize(r);
    }
  }

  /** With pairwise disjoint runs inside the grid, the foreground has exactly as many
      cells as the run lengths add up to. */
  lemma ForegroundCountIsTotalLength(runs: seq<Run>, n: nat)
    requires InsideGrid(runs, n) && PairwiseDisjoint(runs)
    ensures ForegroundCount(Decoded(runs, n)) == TotalLength(runs)
  {
    var m := Decoded(runs, n);
    assert (set i | 0 <= i < |m| && m[i] == 1) == CoveredCells(runs, n);
    CoveredCount(runs, n);
  }

  /** The example of rle `[0, 3, 10, 2]` over shape `[4, 4]`: cells 0, 1, 2, 10 and 11 are
      set ... */
  lemma WorkedExampleCells()
    ensures forall i :: 0 <= i < 16 ==>
      (Decoded(Runs([0, 3, 10, 2]), 16)[i] == 1 <==> i in {0, 1, 2, 10, 11})
  {
    var runs := Runs([0, 3, 10, 2]);
    assert runs == [Run(0, 3), Run(10, 2)];
    forall i | 0 <= i < 16 ensures Covered(runs, i) <==> i in {0, 1, 2, 10, 11} {
      assert Covered(runs, i) <==> InRun(runs[0], i) || InRun(runs[1], i);
    }
  }

  /** ... and the box is `{x: 0, y: 0, width: 4, height: 3}`. */
  lemma WorkedExampleBox()
    ensures IsBoxOf(Decoded(Runs([0, 3, 10, 2]), 16), 4, 4, BoundingBox(0, 0, 4, 3))
  {
    WorkedExampleCells();
    var m := Decoded(Runs([0, 3, 10, 2]), 16);
    var b := BoundingBox(0, 0, 4, 3);
    assert m[0] == 1 && m[11] == 1 && m[10] == 1;
    assert Foreground(m, 4, 4, 0, 0);
    assert Foreground(m, 4, 4, 3, 2);
    assert Foreground(m, 4, 4, 2, 2);
    assert b.Right() == 3 && b.Bottom() == 2;
    forall x, y | Foreground(m, 4, 4, x, y) ensures 0 <= x <= 3 && 0 <= y <= 2 {
      assert m[y * 4 + x] == 1;
      assert y * 4 + x in {0, 1, 2, 10, 11};
    }
  }

  /** The current choice toggles: choosing the selected value clears it, any other
      value becomes the selection. */
  function Toggle<T(==)>(current: Option<T>, choice: T): (r: Option<T>)
    ensures r == None <==> current == Some(choice)
    ensures r != None ==> r == Some(choice)
  {
    if current == Some(choice) then None else Some(choice)
  }

  /** A flake's mask as the analysis sends it; either part may be missing. */
  datatype MaskData = MaskData(rle: Option<seq<int>>, shape: Option<(nat, nat)>)

  datatype Flake = Flake(mask: Option<MaskData>)

  /** A flake carries a mask with both `rle` and `shape`, so clicking it reports a box. */
  predicate HasMask(flake: Flake) {
    flake.mask.Some? && flake.mask.value.rle.Some? && flake.mask.value.shape.Some?
  }

  /** The state of the layer panel: the thickness and the flake index selected in it. */
  class Selection {
    var selectedThickness: Option<int>
    var selectedFlakeIndex: Option<nat>

    constructor ()
      ensures selectedThickness == None && selectedFlakeIndex == None
    {
      selectedThickness := None;
      selectedFlakeIndex := None;
    }

    /** handleThicknessChange: toggles the thickness and always clears the flake. */
    method ThicknessChange(thickness: int)
      modifies this
      ensures selectedThickness == Toggle(old(selectedThickness), thickness)
      ensures selectedFlakeIndex == None
    {
      selectedThickness := Toggle(selectedThickness, thickness);
      selectedFlakeIndex := None;
    }

    /** handleFlakeClick: toggles the flake index; `onFlakeSelect` receives the box of
        the flake's mask, returned here, only when the mask has an rle and a shape. */
    method FlakeClick(flake: Flake, index: nat) returns (reported: Option<BoundingBox>)
      modifies this
      ensures selectedFlakeIndex == Toggle(old(selectedFlakeIndex), index)
      ensures selectedThickness == old(selectedThickness)
      ensures reported.Some? <==> HasMask(flake)
      ensures HasMask(flake) ==>
        var (height, width) := flake.mask.value.shape.value;
        IsBoxOf(Decoded(Runs(flake.mask.value.rle.value), height * width), height, width, reported.value)
    {
      selectedFlakeIndex := Toggle(selectedFlakeIndex, index);
      if HasMask(flake) {
        var (height, width) := flake.mask.value.shape.value;
        var box := DecodeRLE(flake.mask.value.rle.value, height, width);
        reported := Some(box);
      } else {
        reported := None;
      }
    }
  }
}
