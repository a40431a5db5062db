/** Whole frames in single-extension mode: raw chunks through the unscrambler into the assembled image. */
module FrameAssembly {
  import opened Grid
  import opened Amplifiers
  import opened Orientation
  import opened Subimage
  import opened SingleImage
  import U = Unscramble

  /** Equal-sized amplifiers; chan[a] is the read channel the map sends to amplifier a. */
  datatype Camera = Camera(amps: seq<Amp>, physMap: seq<int>, chan: seq<nat>, ncols: nat, nrows: nat)
  {
    function N(): nat { |amps| }
    function Box(): Box { BoxOf(amps, |amps|) }

    /** Amplifiers of one size, and a map that gives every amplifier its own read channel. */
    ghost predicate Wired() {
      && |amps| > 0 && ncols > 0 && nrows > 0
      && U.OneToOne(physMap, chan, |amps|)
      && (forall a :: 0 <= a < |amps| ==> Plain(amps[a]))
    }

    /** No two kept amplifiers share a pixel of the focal plane. */
    ghost predicate Apart() {
      forall a, b, y, x :: 0 <= a < b < |amps| ==> !(Shows(amps[a], y, x) && Shows(amps[b], y, x))
    }

    ghost predicate Valid() { Wired() && Apart() }

    predicate Plain(a: Amp) {
      a.Ncols() == ncols && a.nrows == nrows && OneHot(a.kind) && a.rotate == 0 && a.discard >= 0
    }
  }

  /** Whether a kept amplifier's part of the focal plane contains row y, column x. */
  predicate Shows(a: Amp, y: int, x: int) {
    a.discard <= 0 && Covers(a.xstart, a.ystart, a.Ncols(), a.nrows, y, x)
  }

  function Owner(amps: seq<Amp>, n: nat, y: int, x: int): (r: int)
    requires n <= |amps|
    ensures -1 <= r < n
    ensures r >= 0 ==> Shows(amps[r], y, x)
    ensures r < 0 ==> forall a :: 0 <= a < n ==> !Shows(amps[a], y, x)
  {
    if n == 0 then -1
    else if Shows(amps[n - 1], y, x) then n - 1
    else Owner(amps, n - 1, y, x)
  }

  lemma OwnerIsUnique(cam: Camera, a: int, y: int, x: int)
    requires cam.Valid() && 0 <= a < cam.N() && Shows(cam.amps[a], y, x)
    ensures Owner(cam.amps, cam.N(), y, x) == a
  {
  }

  // ---- the finished image ----

  /** Raw pixels in a number of rows of every channel. */
  function Pixels(cam: Camera, rows: nat): nat {
    NonNegative(cam.ncols, rows);
    NonNegative(cam.N(), cam.ncols * rows);
    cam.N() * (cam.ncols * rows)
  }

  function FramePixels(cam: Camera): nat {
    Pixels(cam, cam.nrows)
  }

  /** The raw cell of pixel (y, x) of read channel i. */
  function RawCell(cam: Camera, i: nat, y: int, x: int): int {
    i + Cell(cam.ncols, y, x) * cam.N()
  }

  lemma RawCellInside(cam: Camera, i: nat, y: int, x: int)
    requires i < cam.N() && 0 <= y < cam.nrows && 0 <= x < cam.ncols
    ensures 0 <= RawCell(cam, i, y, x) < FramePixels(cam)
  {
    var k := Cell(cam.ncols, y, x);
    CellInside(cam.ncols, cam.nrows, y, x);
    CellInside(cam.N(), cam.ncols * cam.nrows, k, i);
  }

  /** The image cell at row y, column x once the first d rows of every channel have been written. */
  function PixelAfter<T>(cam: Camera, raw: seq<T>, d: nat, y: int, x: int, background: T): T
    requires cam.Valid() && |raw| == FramePixels(cam) && d <= cam.nrows
  {
    var a := Owner(cam.amps, cam.N(), y, x);
    if a < 0 then background
    else
      var ry := TurnRow(cam.amps[a].kind, cam.nrows, y - cam.amps[a].ystart);
      var rx := TurnCol(cam.amps[a].kind, cam.ncols, x - cam.amps[a].xstart);
      if ry >= d then background
      else
        RawCellInside(cam, cam.chan[a], ry, rx);
        raw[RawCell(cam, cam.chan[a], ry, rx)]
  }

  function Assembled<T>(cam: Camera, raw: seq<T>, d: nat, background: seq<T>): (image: seq<T>)
    requires cam.Valid() && |raw| == FramePixels(cam) && d <= cam.nrows && cam.Box().Cols() > 0
    ensures |image| == |background|
  {
    var b := cam.Box();
    seq(|background|, p requires 0 <= p < |background| =>
      PixelAfter(cam, raw, d, b.miny + p / b.Cols(), b.minx + p % b.Cols(), background[p]))
  }

  // ---- one chunk ----

  /** The writer's copy of an amplifier when d rows of the frame have been written. */
  function AmpAfter(a: Amp, d: nat): Amp {
    if a.discard > 0 then a
    else if Lower(a.kind) then a.(ystart := a.ystart + d)
    else a.(ystart := a.ystart + a.nrows - d)
  }

  /** Rows d to d + h of every channel, interleaved as the controller sends them. */
  function ChunkOf<T>(cam: Camera, raw: seq<T>, d: nat, h: nat): (c: seq<T>)
    requires |raw| == FramePixels(cam) && d + h <= cam.nrows
    ensures |c| == Pixels(cam, h)
  {
    ChunkInside(cam, d, h);
    raw[Pixels(cam, d)..Pixels(cam, d) + Pixels(cam, h)]
  }

  lemma ChunkInside(cam: Camera, d: nat, h: nat)
    requires d + h <= cam.nrows
    ensures Pixels(cam, d) + Pixels(cam, h) == Pixels(cam, d + h) <= FramePixels(cam)
    ensures 0 <= cam.ncols * h && 0 <= cam.ncols * d
  {
    PixelsAdd(cam, d, h);
    PixelsAdd(cam, d + h, cam.nrows - d - h);
    NonNegative(cam.ncols, h);
    NonNegative(cam.ncols, d);
  }

  lemma PixelsAdd(cam: Camera, a: nat, b: nat)
    ensures Pixels(cam, a) + Pixels(cam, b) == Pixels(cam, a + b)
  {
    Distribute(cam.ncols, a, b);
    Distribute(cam.N(), cam.ncols * a, cam.ncols * b);
  }

  lemma Distribute(a: int, b: int, c: int)
    ensures a * (b + c) == a * b + a * c
  {
  }

  lemma NonNegative(a: nat, b: nat)
    ensures a * b >= 0
  {
  }

  /** The image buffer after GU_SHORT has unscrambled a chunk of h rows over it. */
  function Data<T>(cam: Camera, im: seq<T>, chunk: seq<T>, h: nat): (s: seq<T>)
    requires cam.Wired() && |chunk| == Pixels(cam, h) && |im| == FramePixels(cam) && h <= cam.nrows
    ensures |s| == |im|
  {
    ChunkInside(cam, 0, h);
    assert cam.ncols * h * cam.N() == Pixels(cam, h);
    U.ImageAfter(im, chunk, cam.amps, cam.physMap, cam.ncols * h, cam.N(), [])
  }

  /** A pixel of an amplifier's block, as the raw pixel the geometry says it is. */
  lemma DataPixel<T>(cam: Camera, raw: seq<T>, im: seq<T>, d: nat, h: nat, a: nat, r: int, c: int)
    requires cam.Wired() && |raw| == |im| == FramePixels(cam) && d + h <= cam.nrows
    requires a < cam.N() && 0 <= r < h && 0 <= c < cam.ncols
    ensures var y := d + TurnRow(cam.amps[a].kind, h, r);
            var x := TurnCol(cam.amps[a].kind, cam.ncols, c);
            var p := U.Start(a, cam.ncols * h) + Cell(cam.ncols, r, c);
            && 0 <= RawCell(cam, cam.chan[a], y, x) < |raw|
            && 0 <= p < |im|
            && Data(cam, im, ChunkOf(cam, raw, d, h), h)[p] == raw[RawCell(cam, cam.chan[a], y, x)]
  {
    hide U.ImageAfter, Unscrambled, Channel;
    var m := cam.ncols * h;
    var chunk := ChunkOf(cam, raw, d, h);
    var i, amp := cam.chan[a], cam.amps[a];
    ChunkInside(cam, d, h);
    ChunkInside(cam, 0, h);
    assert m * cam.N() == cam.N() * m;
    U.BlockInside(cam.N(), m, a);
    U.EveryBlockPlaced(im, chunk, cam.amps, cam.physMap, m, cam.N(), i, a * m, []);
    var prev, pixels := im[a * m..a * m + m], Channel(chunk, cam.N(), i, m);
    var block := Data(cam, im, chunk, h)[a * m..a * m + m];
    assert block == Unscrambled(prev, pixels, amp.kind, cam.ncols);
    CellInside(cam.ncols, h, r, c);
    UnscrambledAt(prev, pixels, amp.kind, cam.ncols, h, r, c);
    assert block[Cell(cam.ncols, r, c)] == Data(cam, im, chunk, h)[a * m + Cell(cam.ncols, r, c)];
    var r', c' := TurnRow(amp.kind, h, r), TurnCol(amp.kind, cam.ncols, c);
    ChannelPixel(cam, raw, d, h, i, r', c');
  }

  lemma ChannelPixel<T>(cam: Camera, raw: seq<T>, d: nat, h: nat, i: nat, r: int, c: int)
    requires |raw| == FramePixels(cam) && d + h <= cam.nrows && i < cam.N() && 0 <= r < h && 0 <= c < cam.ncols
    ensures cam.ncols * h * cam.N() <= |ChunkOf(cam, raw, d, h)|
    ensures 0 <= cam.ncols * h && 0 <= Cell(cam.ncols, r, c) < cam.ncols * h
    ensures 0 <= RawCell(cam, i, d + r, c) < |raw|
    ensures Channel(ChunkOf(cam, raw, d, h), cam.N(), i, cam.ncols * h)[Cell(cam.ncols, r, c)]
         == raw[RawCell(cam, i, d + r, c)]
  {
    ChunkInside(cam, d, h);
    RawCellInside(cam, i, d + r, c);
    CellInside(cam.ncols, h, r, c);
    assert cam.ncols * h * cam.N() == Pixels(cam, h);
    CellOfChunk(cam.N(), cam.ncols, d, r, c);
    hide Channel, Cell;
    var k, chunk := Cell(cam.ncols, r, c), ChunkOf(cam, raw, d, h);
    ChannelAt(chunk, cam.N(), i, cam.ncols * h, k);
    assert chunk[i + k * cam.N()] == raw[Pixels(cam, d) + (i + k * cam.N())];
  }

  lemma CellOfChunk(n: nat, ncols: nat, d: int, r: int, c: int)
    ensures Cell(ncols, d + r, c) * n == n * (ncols * d) + Cell(ncols, r, c) * n
  {
    MulSplit(d, r, ncols);
    MulSplit(ncols * d, Cell(ncols, r, c), n);
    assert ncols * d * n == n * (ncols * d);
  }

  // ---- one call of the writer ----

  function AmpsAfter(cam: Camera, d: nat): (s: seq<Amp>)
    ensures |s| == cam.N()
  {
    seq(cam.N(), a requires 0 <= a < cam.N() => AmpAfter(cam.amps[a], d))
  }

  function Starts(cam: Camera, h: nat): (s: seq<nat>)
    ensures |s| == cam.N()
  {
    seq(cam.N(), a requires a >= 0 => var p: nat := U.Start(a, cam.ncols * h); p)
  }

  lemma RowsOfChunk(cam: Camera, h: nat)
    requires cam.Wired()
    ensures cam.ncols * h >= 0 && cam.ncols * h / cam.ncols == h
  {
    CellSplit(cam.ncols, h, 0);
    NonNegative(cam.ncols, h);
  }

  /** At every point of every chunk history the copies stay inside the bounding box and the buffer. */
  lemma BoundingBoxSuffices(cam: Camera, d: nat, h: nat)
    requires cam.Wired() && d + h <= cam.nrows
    ensures cam.ncols * h >= 0
    ensures ChunksFit(AmpsAfter(cam, d), cam.Box(), cam.ncols * h, Starts(cam, h), FramePixels(cam))
  {
    RowsOfChunk(cam, h);
    forall a | 0 <= a < cam.N()
      ensures ChunkFits(AmpAfter(cam.amps[a], d), cam.Box(), cam.ncols * h, U.Start(a, cam.ncols * h), FramePixels(cam))
    {
      if cam.amps[a].discard == 0 {
        BoxHolds(cam.amps, cam.N(), a);
        U.BlockInside(cam.N(), cam.ncols * h, a);
        ChunkInside(cam, 0, h);
      }
    }
  }

  /** The cell of row y, column x of the focal plane. */
  function ImageCell(b: Box, y: int, x: int): int
    requires b.Cols() > 0
  {
    Cell(b.Cols(), y - b.miny, x - b.minx)
  }

  /** Pasting the chunks of the first n amplifiers moves the covered pixels from row count d to d + h. */
  lemma ChunkPixel<T>(cam: Camera, raw: seq<T>, im: seq<T>, image: seq<T>, d: nat, h: nat, n: nat, y: int, x: int)
    requires cam.Valid() && |raw| == |im| == FramePixels(cam) && d + h <= cam.nrows && n <= cam.N()
    requires |image| == cam.Box().Area() && cam.Box().Cols() > 0
    requires cam.Box().minx <= x <= cam.Box().maxx && 0 <= ImageCell(cam.Box(), y, x) < |image|
    ensures cam.ncols * h >= 0
    ensures ChunksFit(AmpsAfter(cam, d), cam.Box(), cam.ncols * h, Starts(cam, h), FramePixels(cam))
    ensures var data := Data(cam, im, ChunkOf(cam, raw, d, h), h);
            var p, a := ImageCell(cam.Box(), y, x), Owner(cam.amps, cam.N(), y, x);
            WithChunks(image, cam.Box(), AmpsAfter(cam, d), data, Starts(cam, h), cam.ncols * h, n)[p] ==
            (if a < n && d <= RowRead(cam, a, y) < d + h then PixelAfter(cam, raw, d + h, y, x, image[p]) else image[p])
    decreases n
  {
    hide Data, PixelAfter, WithChunk, FramePixels;
    BoundingBoxSuffices(cam, d, h);
    if n > 0 {
      ChunkPixel(cam, raw, im, image, d, h, n - 1, y, x);
      var data := Data(cam, im, ChunkOf(cam, raw, d, h), h);
      var before := WithChunks(image, cam.Box(), AmpsAfter(cam, d), data, Starts(cam, h), cam.ncols * h, n - 1);
      OneChunkPixel(cam, raw, im, before, d, h, n - 1, y, x, image[ImageCell(cam.Box(), y, x)]);
    }
  }

  /** The read-out row of the pixel that amplifier a shows in row y. */
  function RowRead(cam: Camera, a: int, y: int): int
    requires -1 <= a < cam.N()
  {
    if a < 0 then -1 else TurnRow(cam.amps[a].kind, cam.nrows, y - cam.amps[a].ystart)
  }

  lemma OneChunkPixel<T>(cam: Camera, raw: seq<T>, im: seq<T>, before: seq<T>, d: nat, h: nat, a: nat, y: int,
                         x: int, bg: T)
    requires cam.Valid() && |raw| == |im| == FramePixels(cam) && d + h <= cam.nrows && a < cam.N()
    requires |before| == cam.Box().Area() && cam.Box().Cols() > 0
    requires cam.Box().minx <= x <= cam.Box().maxx && 0 <= ImageCell(cam.Box(), y, x) < |before|
    requires cam.ncols * h >= 0
    requires ChunkFits(AmpAfter(cam.amps[a], d), cam.Box(), cam.ncols * h, Starts(cam, h)[a], FramePixels(cam))
    ensures var data := Data(cam, im, ChunkOf(cam, raw, d, h), h);
            var p := ImageCell(cam.Box(), y, x);
            WithChunk(before, cam.Box(), AmpAfter(cam.amps[a], d), data, Starts(cam, h)[a], cam.ncols * h)[p] ==
            (if Owner(cam.amps, cam.N(), y, x) == a && d <= RowRead(cam, a, y) < d + h
             then PixelAfter(cam, raw, d + h, y, x, bg) else before[p])
  {
    hide Data, FramePixels, Paste;
    var b, amp, p := cam.Box(), cam.amps[a], ImageCell(cam.Box(), y, x);
    var data := Data(cam, im, ChunkOf(cam, raw, d, h), h);
    RowsOfChunk(cam, h);
    if amp.discard == 0 {
      var from := U.Start(a, cam.ncols * h);
      var sub := data[from..from + cam.ncols * h];
      var x0, y0 := amp.xstart - b.minx, Top(AmpAfter(amp, d), h) - b.miny;
      PasteAt(before, b.Cols(), sub, x0, y0, cam.ncols, h, y - b.miny, x - b.minx);
      if Shows(amp, y, x) {
        OwnerIsUnique(cam, a, y, x);
      }
      if Covers(x0, y0, cam.ncols, h, y - b.miny, x - b.minx) {
        assert Shows(amp, y, x);
        var r, c := y - b.miny - y0, x - b.minx - x0;
        DataPixel(cam, raw, im, d, h, a, r, c);
        assert d + TurnRow(amp.kind, h, r) == RowRead(cam, a, y);
      }
    }
  }

  /** The whole image moves from d finished rows to d + h. */
  lemma ChunkAssembles<T>(cam: Camera, raw: seq<T>, im: seq<T>, bg: seq<T>, d: nat, h: nat)
    requires cam.Valid() && |raw| == |im| == FramePixels(cam) && d + h <= cam.nrows
    requires |bg| == cam.Box().Area() && cam.Box().Cols() > 0
    ensures cam.ncols * h >= 0
    ensures ChunksFit(AmpsAfter(cam, d), cam.Box(), cam.ncols * h, Starts(cam, h), FramePixels(cam))
    ensures WithChunks(Assembled(cam, raw, d, bg), cam.Box(), AmpsAfter(cam, d),
                       Data(cam, im, ChunkOf(cam, raw, d, h), h), Starts(cam, h), cam.ncols * h, cam.N())
         == Assembled(cam, raw, d + h, bg)
  {
    hide Data, WithChunks, FramePixels;
    BoundingBoxSuffices(cam, d, h);
    var b, before, after := cam.Box(), Assembled(cam, raw, d, bg), Assembled(cam, raw, d + h, bg);
    var written := WithChunks(before, b, AmpsAfter(cam, d), Data(cam, im, ChunkOf(cam, raw, d, h), h),
                              Starts(cam, h), cam.ncols * h, cam.N());
    forall p | 0 <= p < |bg|
      ensures written[p] == after[p]
    {
      CellJoin'(b.Cols(), p);
      var y, x := b.miny + p / b.Cols(), b.minx + p % b.Cols();
      assert ImageCell(b, y, x) == p;
      ChunkPixel(cam, raw, im, before, d, h, cam.N(), y, x);
    }
  }

  // ---- a frame in chunks ----

  /** The writer after d rows of a frame. */
  ghost predicate InFrame<T>(s: State<T>, cam: Camera, raw: seq<T>, bg: seq<T>, d: nat) {
    && cam.Valid() && cam.Box().Cols() > 0
    && |raw| == FramePixels(cam) && d <= cam.nrows
    && |bg| == cam.Box().Area()
    && s.fitsamp == AmpsAfter(cam, d)
    && s.box == cam.Box()
    && s.read == Pixels(cam, d)
    && s.image == Assembled(cam, raw, d, bg)
  }

  /** The file has a plane left for the frame. */
  predicate RoomForFrame<T>(s: State<T>) {
    0 <= s.box.Area() * s.nzcnt <= |s.file| - s.box.Area()
  }

  lemma ReadCount(cam: Camera, d: nat, h: nat)
    requires cam.Wired() && d + h <= cam.nrows
    ensures Pixels(cam, h) <= FramePixels(cam)
    ensures h > 0 ==> Pixels(cam, h) > 0
    ensures Pixels(cam, h) / cam.N() == cam.ncols * h
    ensures Pixels(cam, d) + Pixels(cam, h) == FramePixels(cam) <==> d + h == cam.nrows
  {
    hide Pixels;
    ChunkInside(cam, d, h);
    ChunkInside(cam, 0, h);
    PerAmplifier(cam, h);
    if h > 0 {
      Scaled(cam, 0, h);
    }
    if d + h < cam.nrows {
      Scaled(cam, d + h, cam.nrows);
    }
  }

  lemma PerAmplifier(cam: Camera, h: nat)
    requires cam.Wired()
    ensures Pixels(cam, h) / cam.N() == cam.ncols * h
  {
    CellSplit(cam.N(), cam.ncols * h, 0);
  }

  lemma Scaled(cam: Camera, a: nat, b: nat)
    requires cam.Wired() && a < b
    ensures Pixels(cam, a) < Pixels(cam, b)
  {
    MulStrict(cam.ncols, a, b);
    MulStrict(cam.N(), cam.ncols * a, cam.ncols * b);
  }

  lemma MulStrict(w: nat, a: int, b: int)
    requires w > 0 && a < b
    ensures w * a < w * b
  {
    MulMonotone(a + 1, b, w);
    MulSplit(a, 1, w);
  }

  /** The state a completed frame leaves: one more plane in the file, and the writer armed again. */
  function FrameDone<T>(s: State<T>, cam: Camera, raw: seq<T>, bg: seq<T>): State<T>
    requires cam.Valid() && cam.Box().Cols() > 0 && |raw| == FramePixels(cam)
    requires s.box == cam.Box() && |bg| == cam.Box().Area() && RoomForFrame(s)
  {
    var image := Assembled(cam, raw, cam.nrows, bg);
    s.(fitsamp := AmpsAfter(cam, 0), image := image, read := 0, nzcnt := s.nzcnt + 1,
       file := Splice(s.file, s.box.Area() * s.nzcnt, image))
  }

  /** One chunk through both libraries. */
  ghost function Acquire<T>(s: State<T>, cam: Camera, raw: seq<T>, im: seq<T>, d: nat, h: nat, nzim: int,
                            zero: T): State<T>
    requires cam.Valid() && |raw| == |im| == FramePixels(cam) && d + h <= cam.nrows
    requires CanWrite(s, cam.amps, Data(cam, im, ChunkOf(cam, raw, d, h), h), Starts(cam, h), Pixels(cam, h),
                      FramePixels(cam))
  {
    WriteChunk(s, cam.amps, Data(cam, im, ChunkOf(cam, raw, d, h), h), Starts(cam, h), Pixels(cam, h),
               FramePixels(cam), nzim, zero)
  }

  lemma AmpsAdvance(cam: Camera, d: nat, h: nat)
    requires cam.Wired() && d + h <= cam.nrows
    ensures cam.ncols * h >= 0
    ensures forall i :: 0 <= i < cam.N() ==> AmpsAfter(cam, d)[i].Ncols() > 0
    ensures Advanced(AmpsAfter(cam, d), cam.ncols * h, cam.N()) == AmpsAfter(cam, d + h)
    ensures Upright(cam.amps) && Upright(AmpsAfter(cam, d))
  {
    RowsOfChunk(cam, h);
  }

  lemma ArmedIsStart(cam: Camera)
    requires cam.Wired()
    ensures ArmedAmps(cam.amps, cam.N()) == AmpsAfter(cam, 0)
  {
    forall a | 0 <= a < cam.N()
      ensures Armed(cam.amps[a]) == AmpAfter(cam.amps[a], 0)
    {
      assert OneHot(cam.amps[a].kind);
    }
  }

  lemma ChunkStep<T>(s: State<T>, cam: Camera, raw: seq<T>, bg: seq<T>, im: seq<T>, d: nat, h: nat, nzim: int, zero: T)
    requires InFrame(s, cam, raw, bg, d) && RoomForFrame(s)
    requires |im| == FramePixels(cam) && h > 0 && d + h <= cam.nrows && nzim >= 1
    ensures CanWrite(s, cam.amps, Data(cam, im, ChunkOf(cam, raw, d, h), h), Starts(cam, h), Pixels(cam, h),
                     FramePixels(cam))
    ensures d + h < cam.nrows ==>
              var s' := Acquire(s, cam, raw, im, d, h, nzim, zero);
              InFrame(s', cam, raw, bg, d + h) && s'.nzcnt == s.nzcnt && s'.file == s.file
    ensures d + h == cam.nrows ==> Acquire(s, cam, raw, im, d, h, nzim, zero) == FrameDone(s, cam, raw, bg)
  {
    hide Pixels, Data, WithChunks, Assembled, AmpsAfter, Advanced, Splice, BoxOf, ArmedAmps, Upright, ChunksFit;
    BoundingBoxSuffices(cam, d, h);
    ReadCount(cam, d, h);
    ChunkInside(cam, d, h);
    AmpsAdvance(cam, d, h);
    ChunkAssembles(cam, raw, im, bg, d, h);
    ArmedIsStart(cam);
  }

  lemma RoomStays<T>(s: State<T>, cam: Camera, raw: seq<T>, im: seq<T>, d: nat, h: nat, nzim: int, zero: T, bg: seq<T>)
    requires InFrame(s, cam, raw, bg, d) && RoomForFrame(s)
    requires |im| == FramePixels(cam) && h > 0 && d + h <= cam.nrows && nzim >= 1
    ensures CanWrite(s, cam.amps, Data(cam, im, ChunkOf(cam, raw, d, h), h), Starts(cam, h), Pixels(cam, h),
                     FramePixels(cam))
    ensures d + h < cam.nrows ==> RoomForFrame(Acquire(s, cam, raw, im, d, h, nzim, zero))
  {
    hide Acquire, CanWrite, Data, ChunkOf, Starts, Pixels, BoxOf;
    ChunkStep(s, cam, raw, bg, im, d, h, nzim, zero);
  }

  function Sum(hs: seq<nat>): nat {
    if hs == [] then 0 else hs[0] + Sum(hs[1..])
  }

  ghost predicate Splits(hs: seq<nat>, rows: nat) {
    hs != [] && (forall h :: h in hs ==> h > 0) && Sum(hs) == rows
  }

  lemma SplitTail(hs: seq<nat>, rows: nat)
    requires Splits(hs, rows)
    ensures 0 < hs[0] <= rows
    ensures hs[0] == rows <==> |hs| == 1
    ensures |hs| > 1 ==> Splits(hs[1..], rows - hs[0])
  {
    assert hs[0] in hs;
    if |hs| > 1 {
      assert hs[1] in hs;
      assert hs[1..][0] == hs[1];
      assert Sum(hs[1..]) >= hs[1];
      forall h | h in hs[1..] ensures h > 0 {
        assert h in hs;
      }
    }
  }

  /** What the next chunk needs: the writer's state, room in the file, and the split of the rows that are left. */
  ghost predicate CanRun<T>(s: State<T>, cam: Camera, raw: seq<T>, bg: seq<T>, im: seq<T>, hs: seq<nat>, d: nat,
                            nzim: int) {
    && InFrame(s, cam, raw, bg, d) && RoomForFrame(s)
    && |im| == FramePixels(cam) && nzim >= 1
    && Splits(hs, cam.nrows - d)
  }

  /** The writer and the image buffer after the first chunk of hs. */
  ghost function FirstChunk<T>(s: State<T>, cam: Camera, raw: seq<T>, bg: seq<T>, im: seq<T>, hs: seq<nat>, d: nat,
                               nzim: int, zero: T): (State<T>, seq<T>)
    requires CanRun(s, cam, raw, bg, im, hs, d, nzim)
  {
    hide CanWrite, Data, ChunkOf, Starts, Pixels, FramePixels, Acquire, FrameDone;
    SplitTail(hs, cam.nrows - d);
    ChunkStep(s, cam, raw, bg, im, d, hs[0], nzim, zero);
    (Acquire(s, cam, raw, im, d, hs[0], nzim, zero), Data(cam, im, ChunkOf(cam, raw, d, hs[0]), hs[0]))
  }

  lemma CanRunOn<T>(s: State<T>, cam: Camera, raw: seq<T>, bg: seq<T>, im: seq<T>, hs: seq<nat>, d: nat,
                    nzim: int, zero: T)
    requires CanRun(s, cam, raw, bg, im, hs, d, nzim)
    ensures hs != []
    ensures var (s', im') := FirstChunk(s, cam, raw, bg, im, hs, d, nzim, zero);
            |hs| > 1 ==> CanRun(s', cam, raw, bg, im', hs[1..], d + hs[0], nzim)
  {
    hide CanWrite, Data, ChunkOf, Starts, Pixels, FramePixels, Acquire, FrameDone, InFrame, RoomForFrame;
    SplitTail(hs, cam.nrows - d);
    ChunkStep(s, cam, raw, bg, im, d, hs[0], nzim, zero);
    RoomStays(s, cam, raw, im, d, hs[0], nzim, zero, bg);
  }

  /** The rest of a frame, acquired in chunks of hs[0], hs[1], ... rows. */
  ghost function Run<T>(s: State<T>, cam: Camera, raw: seq<T>, bg: seq<T>, im: seq<T>, hs: seq<nat>, d: nat,
                        nzim: int, zero: T): State<T>
    requires CanRun(s, cam, raw, bg, im, hs, d, nzim)
    decreases |hs|
  {
    hide CanRun, FirstChunk;
    CanRunOn(s, cam, raw, bg, im, hs, d, nzim, zero);
    var (s', im') := FirstChunk(s, cam, raw, bg, im, hs, d, nzim, zero);
    if |hs| == 1 then s' else Run(s', cam, raw, bg, im', hs[1..], d + hs[0], nzim, zero)
  }

  /**
   * End to end: however a frame is split into chunks of whole rows, and whatever the image buffer held,
   * the writer ends with the same completed frame.
   */
  lemma {:induction false} FrameLands<T>(s: State<T>, cam: Camera, raw: seq<T>, bg: seq<T>, im: seq<T>, hs: seq<nat>,
                                        d: nat, nzim: int, zero: T)
    requires CanRun(s, cam, raw, bg, im, hs, d, nzim)
    ensures Run(s, cam, raw, bg, im, hs, d, nzim, zero) == FrameDone(s, cam, raw, bg)
    decreases |hs|
  {
    hide Data, Acquire, ChunkOf, CanWrite, Assembled, AmpsAfter, BoxOf, Pixels;
    SplitTail(hs, cam.nrows - d);
    ChunkStep(s, cam, raw, bg, im, d, hs[0], nzim, zero);
    if |hs| > 1 {
      CanRunOn(s, cam, raw, bg, im, hs, d, nzim, zero);
      var (s', im') := FirstChunk(s, cam, raw, bg, im, hs, d, nzim, zero);
      FrameLands(s', cam, raw, bg, im', hs[1..], d + hs[0], nzim, zero);
    }
  }

  // ---- what a completed frame shows ----

  /** Pixel (y, x) of amplifier a's read channel is exactly where its corner and origin say. */
  lemma FinishedPixel<T>(cam: Camera, raw: seq<T>, bg: seq<T>, a: nat, y: nat, x: nat)
    requires cam.Valid() && |raw| == FramePixels(cam) && |bg| == cam.Box().Area() && cam.Box().Cols() > 0
    requires a < cam.N() && cam.amps[a].discard == 0 && y < cam.nrows && x < cam.ncols
    ensures var amp := cam.amps[a];
            var p := ImageCell(cam.Box(), amp.ystart + TurnRow(amp.kind, cam.nrows, y),
                               amp.xstart + TurnCol(amp.kind, cam.ncols, x));
            && 0 <= p < |bg|
            && 0 <= RawCell(cam, cam.chan[a], y, x) < |raw|
            && Assembled(cam, raw, cam.nrows, bg)[p] == raw[RawCell(cam, cam.chan[a], y, x)]
  {
    hide FramePixels, BoxOf, RawCell, Cell, PixelAfter;
    var b, amp := cam.Box(), cam.amps[a];
    assert cam.Plain(amp);
    BoxHolds(cam.amps, cam.N(), a);
    var y', x' := amp.ystart + TurnRow(amp.kind, cam.nrows, y), amp.xstart + TurnCol(amp.kind, cam.ncols, x);
    CellInside(b.Cols(), b.Rows(), y' - b.miny, x' - b.minx);
    assert b.Area() == b.Cols() * b.Rows();
    CellSplit(b.Cols(), y' - b.miny, x' - b.minx);
    RawCellInside(cam, cam.chan[a], y, x);
    OwnPixelAfter(cam, raw, a, y, x, bg[ImageCell(b, y', x')]);
  }

  lemma OwnPixelAfter<T>(cam: Camera, raw: seq<T>, a: nat, y: nat, x: nat, background: T)
    requires cam.Valid() && |raw| == FramePixels(cam)
    requires a < cam.N() && cam.amps[a].discard == 0 && y < cam.nrows && x < cam.ncols
    ensures 0 <= RawCell(cam, cam.chan[a], y, x) < |raw|
    ensures var amp := cam.amps[a];
            PixelAfter(cam, raw, cam.nrows, amp.ystart + TurnRow(amp.kind, cam.nrows, y),
                       amp.xstart + TurnCol(amp.kind, cam.ncols, x), background)
            == raw[RawCell(cam, cam.chan[a], y, x)]
  {
    hide FramePixels, RawCell;
    var amp := cam.amps[a];
    assert cam.Plain(amp);
    RawCellInside(cam, cam.chan[a], y, x);
    OwnerIsUnique(cam, a, amp.ystart + TurnRow(amp.kind, cam.nrows, y), amp.xstart + TurnCol(amp.kind, cam.ncols, x));
  }

  /** Cells no kept amplifier shows keep what the buffer held before the frame. */
  lemma UncoveredPixel<T>(cam: Camera, raw: seq<T>, bg: seq<T>, p: nat)
    requires cam.Valid() && |raw| == FramePixels(cam) && |bg| == cam.Box().Area() && cam.Box().Cols() > 0 && p < |bg|
    requires forall a :: 0 <= a < cam.N() ==>
               !Shows(cam.amps[a], cam.Box().miny + p / cam.Box().Cols(), cam.Box().minx + p % cam.Box().Cols())
    ensures Assembled(cam, raw, cam.nrows, bg)[p] == bg[p]
  {
  }

  // ---- several frames in one file ----

  datatype Acquisition<T> = Acquisition(raw: seq<T>, chunks: seq<nat>, im: seq<T>)

  ghost predicate Acquirable<T>(cam: Camera, f: Acquisition<T>) {
    |f.raw| == |f.im| == FramePixels(cam) && Splits(f.chunks, cam.nrows)
  }

  /** The writer between two frames. */
  ghost predicate Ready<T>(s: State<T>, cam: Camera) {
    && cam.Valid() && cam.Box().Cols() > 0
    && s.fitsamp == AmpsAfter(cam, 0) && s.box == cam.Box() && s.read == 0
    && |s.image| == cam.Box().Area()
  }

  /** One kept amplifier is enough for an image with pixels. */
  lemma KeptAmpGivesBox(cam: Camera, a: nat)
    requires cam.Wired() && a < cam.N() && cam.amps[a].discard == 0
    ensures cam.Box().Cols() > 0 && cam.Box().Rows() > 0
  {
    BoxHolds(cam.amps, cam.N(), a);
    assert cam.Plain(cam.amps[a]);
  }

  lemma SetUpIsReady<T>(s: State<T>, cam: Camera, zero: T, modeChanged: bool)
    requires cam.Valid() && cam.Box().Cols() > 0
    requires s.box == cam.Box() ==> |s.image| == cam.Box().Area()
    ensures Ready(SetValues(s, cam.amps, zero, modeChanged), cam)
    ensures modeChanged || s.box != cam.Box() ==>
              SetValues(s, cam.amps, zero, modeChanged).image == seq(cam.Box().Area(), _ => zero)
  {
    hide BoxOf;
    ArmedIsStart(cam);
  }

  lemma ReadyStartsFrame<T>(s: State<T>, cam: Camera, raw: seq<T>)
    requires Ready(s, cam) && |raw| == FramePixels(cam)
    ensures InFrame(s, cam, raw, s.image, 0)
  {
    hide BoxOf, FramePixels;
    NothingRead(cam);
    var shown := Assembled(cam, raw, 0, s.image);
    forall p | 0 <= p < |s.image|
      ensures shown[p] == s.image[p]
    {
      var y, x := cam.Box().miny + p / cam.Box().Cols(), cam.Box().minx + p % cam.Box().Cols();
      var a := Owner(cam.amps, cam.N(), y, x);
      assert a >= 0 ==> RowRead(cam, a, y) >= 0;
    }
  }

  lemma NothingRead(cam: Camera)
    ensures Pixels(cam, 0) == 0
  {
  }

  /** A frame over an earlier one shows what it would show over the first background. */
  lemma FrameOverFrame<T>(cam: Camera, raw: seq<T>, raw': seq<T>, bg: seq<T>)
    requires cam.Valid() && |raw| == |raw'| == FramePixels(cam) && cam.Box().Cols() > 0
    ensures Assembled(cam, raw', cam.nrows, Assembled(cam, raw, cam.nrows, bg)) == Assembled(cam, raw', cam.nrows, bg)
  {
    hide BoxOf, FramePixels, RawCell;
    var first := Assembled(cam, raw, cam.nrows, bg);
    forall p | 0 <= p < |bg|
      ensures Assembled(cam, raw', cam.nrows, first)[p] == Assembled(cam, raw', cam.nrows, bg)[p]
    {
      var y, x := cam.Box().miny + p / cam.Box().Cols(), cam.Box().minx + p % cam.Box().Cols();
      var a := Owner(cam.amps, cam.N(), y, x);
      assert a >= 0 ==> RowRead(cam, a, y) < cam.nrows;
    }
  }

  ghost predicate RoomFor<T>(s: State<T>, cam: Camera, n: nat) {
    0 <= cam.Box().Area() * s.nzcnt && cam.Box().Area() * (s.nzcnt + n) <= |s.file|
  }

  lemma RoomNow<T>(s: State<T>, cam: Camera, n: nat)
    requires RoomFor(s, cam, n) && s.box == cam.Box() && n > 0
    ensures RoomForFrame(s)
    ensures 0 <= cam.Box().Area() * (s.nzcnt + 1)
  {
    Distribute(cam.Box().Area(), s.nzcnt, 1);
    Distribute(cam.Box().Area(), s.nzcnt + 1, n - 1);
    NonNegative(cam.Box().Area(), n - 1);
    NonNegative(cam.Box().Area(), s.nzcnt + 1);
  }

  /** One whole frame, from one armed writer to the next. */
  ghost function AcquireFrame<T>(s: State<T>, cam: Camera, f: Acquisition<T>, nzim: int, zero: T): (s': State<T>)
    requires Ready(s, cam) && RoomForFrame(s) && Acquirable(cam, f) && nzim >= 1
    ensures s' == FrameDone(s, cam, f.raw, s.image)
    ensures Ready(s', cam)
  {
    ReadyStartsFrame(s, cam, f.raw);
    FrameLands(s, cam, f.raw, s.image, f.im, f.chunks, 0, nzim, zero);
    Run(s, cam, f.raw, s.image, f.im, f.chunks, 0, nzim, zero)
  }

  ghost predicate AllAcquirable<T>(cam: Camera, fs: seq<Acquisition<T>>) {
    forall k :: 0 <= k < |fs| ==> Acquirable(cam, fs[k])
  }

  lemma NextFrame<T>(s: State<T>, cam: Camera, fs: seq<Acquisition<T>>, nzim: int, zero: T)
    requires Ready(s, cam) && RoomFor(s, cam, |fs|) && AllAcquirable(cam, fs) && nzim >= 1 && fs != []
    ensures RoomForFrame(s) && Acquirable(cam, fs[0]) && AllAcquirable(cam, fs[1..])
    ensures Ready(AcquireFrame(s, cam, fs[0], nzim, zero), cam)
    ensures RoomFor(AcquireFrame(s, cam, fs[0], nzim, zero), cam, |fs[1..]|)
  {
    hide Acquirable, AcquireFrame, Assembled, AmpsAfter, BoxOf, Splice;
    RoomNow(s, cam, |fs|);
  }

  /** Successive frames, each split in its own way. */
  ghost function Frames<T>(s: State<T>, cam: Camera, fs: seq<Acquisition<T>>, nzim: int, zero: T): State<T>
    requires Ready(s, cam) && RoomFor(s, cam, |fs|) && AllAcquirable(cam, fs) && nzim >= 1
    decreases |fs|
  {
    hide Acquirable, FrameDone, RoomFor, RoomForFrame, Camera.Valid, BoxOf, Ready;
    if fs == [] then s
    else
      NextFrame(s, cam, fs, nzim, zero);
      Frames(AcquireFrame(s, cam, fs[0], nzim, zero), cam, fs[1..], nzim, zero)
  }

  /** Plane k of the file. */
  function Plane<T>(file: seq<T>, area: nat, k: nat): seq<T>
    requires 0 <= area * k && area * (k + 1) <= |file|
  {
    Distribute(area, k, 1);
    file[area * k..area * (k + 1)]
  }

  lemma PlaneInside(area: nat, k: nat, n: nat, len: nat)
    requires k < n && area * n <= len
    ensures 0 <= area * k && area * (k + 1) <= len
  {
    NonNegative(area, k);
    NonNegative(area, n - k - 1);
    Distribute(area, k + 1, n - k - 1);
  }

  /** Writing plane k replaces it and leaves the others. */
  lemma PlaneWritten<T>(file: seq<T>, area: nat, k: nat, image: seq<T>, j: nat)
    requires 0 <= area * k <= |file| - area && |image| == area
    requires 0 <= area * j && area * (j + 1) <= |file|
    ensures Plane(Splice(file, area * k, image), area, j) == if j == k then image else Plane(file, area, j)
  {
    Distribute(area, j, 1);
    if j < k {
      Distribute(area, j + 1, k - j - 1);
      NonNegative(area, k - j - 1);
      SpliceElsewhere(file, area * k, image, area * j, area);
    } else if k < j {
      Distribute(area, k, 1);
      Distribute(area, k + 1, j - k - 1);
      NonNegative(area, j - k - 1);
      SpliceElsewhere(file, area * k, image, area * j, area);
    } else {
      SpliceHere(file, area * k, image);
    }
  }

  /** Plane j of the file after frames fs: earlier planes as they were, later ones as their frame assembles. */
  ghost predicate PlaneLanded<T>(s: State<T>, s': State<T>, cam: Camera, fs: seq<Acquisition<T>>, j: nat)
    requires Ready(s, cam) && AllAcquirable(cam, fs) && j < s.nzcnt + |fs|
  {
    var area := cam.Box().Area();
    && |s'.file| == |s.file|
    && 0 <= area * j && area * (j + 1) <= |s.file|
    && Plane(s'.file, area, j) ==
       (if j < s.nzcnt then Plane(s.file, area, j)
        else Assembled(cam, fs[j - s.nzcnt].raw, cam.nrows, s.image))
  }

  /**
   * A file of several frames: every plane is the image its own raw frame assembles to, no matter how
   * each frame was split, and earlier planes are never touched again.
   */
  lemma {:induction false} CubeLands<T>(s: State<T>, cam: Camera, fs: seq<Acquisition<T>>, nzim: int, zero: T, j: nat)
    requires Ready(s, cam) && RoomFor(s, cam, |fs|) && AllAcquirable(cam, fs) && nzim >= 1
    requires j < s.nzcnt + |fs|
    ensures Ready(Frames(s, cam, fs, nzim, zero), cam)
    ensures Frames(s, cam, fs, nzim, zero).nzcnt == s.nzcnt + |fs|
    ensures PlaneLanded(s, Frames(s, cam, fs, nzim, zero), cam, fs, j)
    decreases |fs|
  {
    hide BoxOf, FramePixels, Pixels, Assembled, AmpsAfter, Plane, Splice;
    PlaneInside(cam.Box().Area(), j, s.nzcnt + |fs|, |s.file|);
    if fs != [] {
      RoomNow(s, cam, |fs|);
      var s' := AcquireFrame(s, cam, fs[0], nzim, zero);
      CubeLands(s', cam, fs[1..], nzim, zero, j);
      PlanesCompose(s, s', Frames(s', cam, fs[1..], nzim, zero), cam, fs, j);
    }
  }

  lemma PlanesCompose<T>(s: State<T>, s': State<T>, s'': State<T>, cam: Camera, fs: seq<Acquisition<T>>, j: nat)
    requires Ready(s, cam) && Ready(s', cam) && fs != [] && AllAcquirable(cam, fs) && j < s.nzcnt + |fs|
    requires RoomForFrame(s) && |fs[0].raw| == FramePixels(cam)
    requires s' == FrameDone(s, cam, fs[0].raw, s.image)
    requires AllAcquirable(cam, fs[1..]) && PlaneLanded(s', s'', cam, fs[1..], j)
    ensures PlaneLanded(s, s'', cam, fs, j)
  {
    hide BoxOf, FramePixels, Assembled, AmpsAfter, Plane, Splice;
    var area, image := cam.Box().Area(), Assembled(cam, fs[0].raw, cam.nrows, s.image);
    PlaneWritten(s.file, area, s.nzcnt, image, j);
    if j > s.nzcnt {
      assert fs[1..][j - s'.nzcnt] == fs[j - s.nzcnt];
      assert Acquirable(cam, fs[j - s.nzcnt]);
      FrameOverFrame(cam, fs[0].raw, fs[j - s.nzcnt].raw, s.image);
    }
  }
}
