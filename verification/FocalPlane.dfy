/** Single-extension images of a focal plane that the kept amplifiers fill: the image is exactly that plane. */
module FocalPlane {
  import opened Grid
  import opened Amplifiers
  import opened Orientation
  import opened SingleImage
  import opened FrameAssembly
  import opened Permutations
  import D = Detectors

  /** The rectangle of w by h pixels whose first row and column are y0 and x0. */
  datatype Rect = Rect(x0: int, y0: int, w: nat, h: nat)

  ghost predicate Shown(cam: Camera, y: int, x: int) {
    exists a :: 0 <= a < cam.N() && Shows(cam.amps[a], y, x)
  }

  predicate InPlane(r: Rect, y: int, x: int) {
    r.y0 <= y < r.y0 + r.h && r.x0 <= x < r.x0 + r.w
  }

  /** The kept amplifiers show the pixels of the plane and no others; it lies where the search can see it. */
  ghost predicate Fills(cam: Camera, r: Rect) {
    && cam.Valid() && r.w > 0 && r.h > 0
    && r.x0 <= 1000000 && r.y0 <= 1000000 && r.x0 + r.w >= 0 && r.y0 + r.h >= 0
    && forall y, x :: Shown(cam, y, x) <==> InPlane(r, y, x)
  }

  lemma ShownPixel(cam: Camera, r: Rect, y: int, x: int) returns (a: nat)
    requires Fills(cam, r) && InPlane(r, y, x)
    ensures a < cam.N() && cam.amps[a].discard == 0
    ensures var amp := cam.amps[a];
            amp.ystart <= y < amp.ystart + cam.nrows && amp.xstart <= x < amp.xstart + cam.ncols
  {
    assert Shown(cam, y, x);
    a :| 0 <= a < cam.N() && Shows(cam.amps[a], y, x);
    assert cam.Plain(cam.amps[a]);
  }

  lemma AmpInPlane(cam: Camera, r: Rect, a: nat)
    requires Fills(cam, r) && a < cam.N() && cam.amps[a].discard == 0
    ensures var amp := cam.amps[a];
            && r.y0 <= amp.ystart && amp.ystart + cam.nrows <= r.y0 + r.h
            && r.x0 <= amp.xstart && amp.xstart + cam.ncols <= r.x0 + r.w
            && SideOf(amp, RightSide) == amp.xstart + cam.ncols - 1
            && SideOf(amp, TopSide) == amp.ystart + cam.nrows - 1
  {
    var amp := cam.amps[a];
    assert cam.Plain(amp);
    assert Shows(amp, amp.ystart, amp.xstart);
    assert Shown(cam, amp.ystart, amp.xstart);
    assert Shows(amp, amp.ystart + cam.nrows - 1, amp.xstart + cam.ncols - 1);
    assert Shown(cam, amp.ystart + cam.nrows - 1, amp.xstart + cam.ncols - 1);
  }

  /** The image has the size of the plane: no margin, and no pixel too few. */
  lemma BoxIsPlane(cam: Camera, r: Rect)
    requires Fills(cam, r)
    ensures cam.Box() == Box(r.x0, r.y0, r.x0 + r.w - 1, r.y0 + r.h - 1)
    ensures cam.Box().Cols() == r.w && cam.Box().Area() == r.w * r.h
  {
    hide BoxOf, Fills;
    PlaneCorners(cam, r);
    var low := ShownPixel(cam, r, r.y0, r.x0);
    var high := ShownPixel(cam, r, r.y0 + r.h - 1, r.x0 + r.w - 1);
    AmpInPlane(cam, r, low);
    AmpInPlane(cam, r, high);
    BoxHolds(cam.amps, cam.N(), low);
    BoxHolds(cam.amps, cam.N(), high);
    var plane := Box(r.x0, r.y0, r.x0 + r.w - 1, r.y0 + r.h - 1);
    forall j | 0 <= j < |cam.amps| && cam.amps[j].discard == 0
      ensures Holds(plane, cam.amps[j])
    {
      AmpInPlane(cam, r, j);
    }
    LeastBox(cam.amps, low, high, plane);
  }

  lemma PlaneCorners(cam: Camera, r: Rect)
    requires Fills(cam, r)
    ensures InPlane(r, r.y0, r.x0) && InPlane(r, r.y0 + r.h - 1, r.x0 + r.w - 1)
    ensures cam.Valid() && r.x0 <= 1000000 && r.y0 <= 1000000 && r.x0 + r.w >= 0 && r.y0 + r.h >= 0
  {
  }

  /** The cell of the image that shows pixel (y, x) of amplifier a's read channel: row times width plus column. */
  function PixelAt(cam: Camera, r: Rect, a: nat, y: nat, x: nat): int
    requires a < cam.N()
  {
    var amp := cam.amps[a];
    var row := if amp.kind in {LL, LR} then amp.ystart + y else amp.ystart + cam.nrows - 1 - y;
    var col := if amp.kind in {LL, UL} then amp.xstart + x else amp.xstart + cam.ncols - 1 - x;
    (row - r.y0) * r.w + (col - r.x0)
  }

  /** Every kept raw pixel lies where its amplifier's corner and origin put it on the plane. */
  lemma PlanePixel<T>(cam: Camera, r: Rect, raw: seq<T>, bg: seq<T>, a: nat, y: nat, x: nat)
    requires Fills(cam, r) && |raw| == FramePixels(cam) && |bg| == r.w * r.h
    requires a < cam.N() && cam.amps[a].discard == 0 && y < cam.nrows && x < cam.ncols
    ensures cam.Box().Cols() > 0
    ensures var p, q := PixelAt(cam, r, a, y, x), cam.chan[a] + (y * cam.ncols + x) * cam.N();
            && 0 <= p < |bg| && 0 <= q < |raw|
            && Assembled(cam, raw, cam.nrows, bg)[p] == raw[q]
  {
    hide Fills, BoxOf, FramePixels, Assembled;
    PlaneCorners(cam, r);
    BoxIsPlane(cam, r);
    assert cam.Plain(cam.amps[a]);
    assert r.w > 0 by { PlaneCorners(cam, r); }
    FinishedPixel(cam, raw, bg, a, y, x);
  }

  /** The image of a filled plane has no background: every cell shows a raw pixel of a kept amplifier. */
  lemma EveryCellShown(cam: Camera, r: Rect, p: nat) returns (a: nat, y: nat, x: nat)
    requires Fills(cam, r) && p < r.w * r.h
    ensures a < cam.N() && cam.amps[a].discard == 0 && y < cam.nrows && x < cam.ncols
    ensures PixelAt(cam, r, a, y, x) == p
  {
    CellJoin(r.w, r.h, p);
    var row, col := r.y0 + p / r.w, r.x0 + p % r.w;
    hide Fills;
    a := ShownPixel(cam, r, row, col);
    PlaneCorners(cam, r);
    var amp := cam.amps[a];
    assert cam.Plain(amp);
    y := if amp.kind in {LL, LR} then row - amp.ystart else amp.ystart + cam.nrows - 1 - row;
    x := if amp.kind in {LL, UL} then col - amp.xstart else amp.xstart + cam.ncols - 1 - col;
  }

  /** Two raw pixels never share a cell. */
  lemma PixelAtInjective(cam: Camera, r: Rect, a: nat, y: nat, x: nat, a': nat, y': nat, x': nat)
    requires Fills(cam, r) && a < cam.N() && a' < cam.N() && cam.amps[a].discard == 0 && cam.amps[a'].discard == 0
    requires y < cam.nrows && x < cam.ncols && y' < cam.nrows && x' < cam.ncols
    requires PixelAt(cam, r, a, y, x) == PixelAt(cam, r, a', y', x')
    ensures a == a' && y == y' && x == x'
  {
    hide Fills;
    PlaneCorners(cam, r);
    var row, col := ShownAt(cam, r, a, y, x);
    var row', col' := ShownAt(cam, r, a', y', x');
    CellInjective(r.w, row - r.y0, col - r.x0, row' - r.y0, col' - r.x0);
    OwnerIsUnique(cam, a, row, col);
    OwnerIsUnique(cam, a', row, col);
  }

  lemma ShownAt(cam: Camera, r: Rect, a: nat, y: nat, x: nat) returns (row: int, col: int)
    requires Fills(cam, r) && a < cam.N() && cam.amps[a].discard == 0 && y < cam.nrows && x < cam.ncols
    ensures var amp := cam.amps[a];
            && row == (if amp.kind in {LL, LR} then amp.ystart + y else amp.ystart + cam.nrows - 1 - y)
            && col == (if amp.kind in {LL, UL} then amp.xstart + x else amp.xstart + cam.ncols - 1 - x)
            && Shows(amp, row, col) && InPlane(r, row, col)
            && PixelAt(cam, r, a, y, x) == Cell(r.w, row - r.y0, col - r.x0)
  {
    AmpInPlane(cam, r, a);
    var amp := cam.amps[a];
    assert cam.Plain(amp);
    row := if amp.kind in {LL, LR} then amp.ystart + y else amp.ystart + cam.nrows - 1 - y;
    col := if amp.kind in {LL, UL} then amp.xstart + x else amp.xstart + cam.ncols - 1 - x;
  }

  // ---- nothing discarded: the image is the raw frame rearranged ----

  ghost predicate KeepsAll(cam: Camera) {
    forall a :: 0 <= a < cam.N() ==> cam.amps[a].discard == 0
  }

  ghost function CellOfRaw(cam: Camera, r: Rect, k: nat): (p: nat)
    requires Fills(cam, r) && KeepsAll(cam) && k < FramePixels(cam)
    ensures p < r.w * r.h
  {
    var (a, y, x) := D.RawPixel(cam, k);
    CellInPlane(cam, r, a, y, x);
    PixelAt(cam, r, a, y, x)
  }

  lemma CellInPlane(cam: Camera, r: Rect, a: nat, y: nat, x: nat)
    requires Fills(cam, r) && a < cam.N() && cam.amps[a].discard == 0 && y < cam.nrows && x < cam.ncols
    ensures 0 <= PixelAt(cam, r, a, y, x) < r.w * r.h
  {
    hide Fills, Cell;
    var row, col := ShownAt(cam, r, a, y, x);
    CellInside(r.w, r.h, row - r.y0, col - r.x0);
  }

  ghost function Cells(cam: Camera, r: Rect): (at: seq<nat>)
    requires Fills(cam, r) && KeepsAll(cam)
    ensures |at| == FramePixels(cam)
    ensures forall k :: 0 <= k < |at| ==> at[k] == CellOfRaw(cam, r, k)
  {
    seq(FramePixels(cam), k requires 0 <= k < FramePixels(cam) => CellOfRaw(cam, r, k))
  }

  lemma CellsPermute(cam: Camera, r: Rect)
    requires Fills(cam, r) && KeepsAll(cam)
    ensures Permutes(Cells(cam, r), r.w * r.h)
  {
    PlaneCorners(cam, r);
    hide Fills, PixelAt, FramePixels, RawCell, D.RawPixel, Camera.Apart;
    var at := Cells(cam, r);
    hide Cells;
    forall k, k' | 0 <= k < k' < |at|
      ensures at[k] != at[k']
    {
      if at[k] == at[k'] {
        var ((a, y, x), (a', y', x')) := (D.RawPixel(cam, k), D.RawPixel(cam, k'));
        PixelAtInjective(cam, r, a, y, x, a', y', x');
      }
    }
    forall p | 0 <= p < r.w * r.h
      ensures p in at
    {
      var a, y, x := EveryCellShown(cam, r, p);
      RawCellInside(cam, cam.chan[a], y, x);
      var k: nat := RawCell(cam, cam.chan[a], y, x);
      var (a', y', x') := D.RawPixel(cam, k);
      D.RawCellInjective(cam, a, y, x, a', y', x');
      assert at[k] == p;
    }
  }

  /**
   * The image of a focal plane that the amplifiers fill, with none discarded, is a permutation of the raw
   * frame: it has the plane's width and height, as many pixels as were read, and shows each of them once.
   */
  lemma ImagePermutes<T>(cam: Camera, r: Rect, raw: seq<T>, bg: seq<T>)
    requires Fills(cam, r) && KeepsAll(cam) && |raw| == FramePixels(cam) && |bg| == r.w * r.h
    ensures cam.Box().Cols() > 0
    ensures cam.Box().Area() == r.w * r.h == FramePixels(cam)
    ensures multiset(Assembled(cam, raw, cam.nrows, bg)) == multiset(raw)
  {
    hide Fills, PixelAt, FramePixels, RawCell, Assembled, Cells, D.RawPixel, BoxOf;
    PlaneCorners(cam, r);
    BoxIsPlane(cam, r);
    var image, at := Assembled(cam, raw, cam.nrows, bg), Cells(cam, r);
    CellsPermute(cam, r);
    forall k | 0 <= k < |raw|
      ensures raw[k] == image[at[k]]
    {
      RawIsShown(cam, r, raw, bg, k);
    }
    Rearranged(raw, image, at);
  }

  lemma RawIsShown<T>(cam: Camera, r: Rect, raw: seq<T>, bg: seq<T>, k: nat)
    requires Fills(cam, r) && KeepsAll(cam) && |raw| == FramePixels(cam) && |bg| == r.w * r.h && k < |raw|
    ensures cam.Box().Cols() > 0 && Assembled(cam, raw, cam.nrows, bg)[CellOfRaw(cam, r, k)] == raw[k]
  {
    hide Fills, PixelAt, FramePixels, Assembled, D.RawPixel, BoxOf;
    PlaneCorners(cam, r);
    var (a, y, x) := D.RawPixel(cam, k);
    assert RawCell(cam, cam.chan[a], y, x) == cam.chan[a] + (y * cam.ncols + x) * cam.N();
    PlanePixel(cam, r, raw, bg, a, y, x);
  }
}
