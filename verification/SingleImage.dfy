/** Single-extension images: GF_fits_set_values and GF_writeImage_Single for upright amplifiers. */
module SingleImage {
  import opened Grid
  import opened Amplifiers
  import opened Subimage

  /** The bounding box of the amplifiers that are kept. */
  datatype Box = Box(minx: int, miny: int, maxx: int, maxy: int)
  {
    function Cols(): int { maxx - minx + 1 }
    function Rows(): int { maxy - miny + 1 }
    function Area(): nat {
      if Cols() > 0 && Rows() > 0 then
        MulMonotone(0, Rows(), Cols());
        Rows() * Cols()
      else 0
    }
  }

  function BoxOf(amps: seq<Amp>, n: nat): Box
    requires n <= |amps|
  {
    if n == 0 then Box(1000000, 1000000, -1, -1)
    else
      var b, a := BoxOf(amps, n - 1), amps[n - 1];
      if a.discard != 0 then b
      else
        var right, top := a.xstart + a.Ncols() - 1, a.ystart + a.nrows - 1;
        Box(if a.xstart < b.minx then a.xstart else b.minx,
            if a.ystart < b.miny then a.ystart else b.miny,
            if right > b.maxx then right else b.maxx,
            if top > b.maxy then top else b.maxy)
  }

  /** Rotated amplifiers take another path through the writer. */
  predicate Upright(amps: seq<Amp>) {
    forall a :: a in amps ==> a.rotate == 0
  }

  /** The writer's working copy of an amplifier: upper ones start above their block and move down. */
  function Armed(a: Amp): Amp {
    if a.discard == 0 && a.kind & UPPER != 0 then a.(ystart := a.ystart + a.nrows) else a
  }

  function ArmedAmps(amps: seq<Amp>, n: nat): (r: seq<Amp>)
    requires n <= |amps|
    ensures |r| == n
  {
    seq(n, i requires 0 <= i < n => Armed(amps[i]))
  }

  /** Where the next chunk of an amplifier goes, and the amplifier after it. */
  function Top(a: Amp, rows: nat): int {
    if Lower(a.kind) then a.ystart else a.ystart - rows
  }

  function Advance(a: Amp, m: nat): Amp
    requires a.discard <= 0 ==> a.Ncols() > 0
  {
    if a.discard > 0 then a
    else if Lower(a.kind) then a.(ystart := a.ystart + m / a.Ncols())
    else a.(ystart := a.ystart - m / a.Ncols())
  }

  /** One amplifier's chunk of m pixels lies inside the box and inside the data buffer. */
  predicate ChunkFits(a: Amp, b: Box, m: nat, from: nat, len: nat) {
    a.discard <= 0 ==>
      && a.Ncols() > 0
      && b.minx <= a.xstart && a.xstart + a.Ncols() - 1 <= b.maxx
      && b.miny <= Top(a, m / a.Ncols()) && Top(a, m / a.Ncols()) + m / a.Ncols() - 1 <= b.maxy
      && from + a.Ncols() * (m / a.Ncols()) <= len
  }

  ghost predicate ChunksFit(amps: seq<Amp>, b: Box, m: nat, dataptr: seq<nat>, len: nat) {
    && |dataptr| == |amps|
    && forall i :: 0 <= i < |amps| ==> ChunkFits(amps[i], b, m, dataptr[i], len)
  }

  /** The image after one amplifier's chunk has been added. */
  function WithChunk<T>(image: seq<T>, b: Box, a: Amp, data: seq<T>, from: nat, m: nat): (r: seq<T>)
    requires |image| == b.Area() && ChunkFits(a, b, m, from, |data|)
    ensures |r| == |image|
  {
    if a.discard > 0 then image
    else
      var rows := m / a.Ncols();
      Paste(image, b.Cols(), data[from..from + a.Ncols() * rows],
            a.xstart - b.minx, Top(a, rows) - b.miny, a.Ncols(), rows)
  }

  /** The image after the chunks of the first n amplifiers. */
  function WithChunks<T>(image: seq<T>, b: Box, amps: seq<Amp>, data: seq<T>, dataptr: seq<nat>, m: nat,
                         n: nat): (r: seq<T>)
    requires |image| == b.Area() && ChunksFit(amps, b, m, dataptr, |data|) && n <= |amps|
    ensures |r| == |image|
  {
    if n == 0 then image
    else WithChunk(WithChunks(image, b, amps, data, dataptr, m, n - 1), b, amps[n - 1], data, dataptr[n - 1], m)
  }

  function Advanced(amps: seq<Amp>, m: nat, n: nat): (r: seq<Amp>)
    requires n <= |amps|
    requires forall i :: 0 <= i < |amps| && amps[i].discard <= 0 ==> amps[i].Ncols() > 0
    ensures |r| == |amps|
  {
    seq(|amps|, i requires 0 <= i < |amps| => if i < n then Advance(amps[i], m) else amps[i])
  }

  /** Everything the writer keeps between calls. */
  datatype State<T> = State(fitsamp: seq<Amp>, box: Box, image: seq<T>, read: nat, nzcnt: nat, file: seq<T>)

  /** Start of a frame; the image buffer is cleared only when the box has changed. */
  function SetValues<T>(s: State<T>, amps: seq<Amp>, zero: T, modeChanged: bool): State<T> {
    var b := BoxOf(amps, |amps|);
    var image := if modeChanged || b != s.box then seq(b.Area(), _ => zero) else s.image;
    s.(fitsamp := ArmedAmps(amps, |amps|), box := b, image := image, read := 0)
  }

  function Clamp(eleRead: nat, totPixels: nat): nat {
    if eleRead > totPixels then totPixels else eleRead
  }

  /** What one call of GF_writeImage_Single needs: the chunk fits the frame, and a full frame fits the file. */
  ghost predicate CanWrite<T>(s: State<T>, amps: seq<Amp>, data: seq<T>, dataptr: seq<nat>, eleRead: nat,
                              totPixels: nat) {
    && |s.fitsamp| == |amps| > 0
    && Upright(amps) && Upright(s.fitsamp)
    && |s.image| == s.box.Area()
    && ChunksFit(s.fitsamp, s.box, Clamp(eleRead, totPixels) / |amps|, dataptr, |data|)
    && (s.read + Clamp(eleRead, totPixels) == totPixels ==>
          0 <= s.box.Area() * s.nzcnt <= |s.file| - s.box.Area())
  }

  function WriteChunk<T>(s: State<T>, amps: seq<Amp>, data: seq<T>, dataptr: seq<nat>, eleRead: nat,
                         totPixels: nat, nzim: int, zero: T): State<T>
    requires CanWrite(s, amps, data, dataptr, eleRead, totPixels)
  {
    if eleRead == 0 then s
    else
      var e := Clamp(eleRead, totPixels);
      var m := e / |amps|;
      var image := WithChunks(s.image, s.box, s.fitsamp, data, dataptr, m, |amps|);
      var s' := s.(fitsamp := Advanced(s.fitsamp, m, |amps|), image := image, read := s.read + e);
      if s'.read != totPixels then s'
      else
        var full := s'.(file := Splice(s.file, s.box.Area() * s.nzcnt, image));
        if nzim >= 1 then SetValues(full.(nzcnt := s.nzcnt + 1), amps, zero, false) else full
  }

  class SingleWriter<T(0)> {
    const zero: T
    const totPixels: nat
    const nzim: int
    var fitsamp: seq<Amp>
    var box: Box
    var tmpptr: array<T>
    var totEleRead: nat
    var nzcnt: nat
    var file: seq<T>

    ghost function Contents(): State<T>
      reads this, tmpptr
    {
      State(fitsamp, box, tmpptr[..], totEleRead, nzcnt, file)
    }

    constructor (zero: T, totPixels: nat, nzim: int, planes: nat, size: nat)
      ensures Contents() == State([], Box(1000000, 1000000, -1, -1), [], 0, 0, seq(planes * size, _ => zero))
      ensures this.zero == zero && this.totPixels == totPixels && this.nzim == nzim && fresh(tmpptr)
    {
      this.zero, this.totPixels, this.nzim := zero, totPixels, nzim;
      fitsamp, box, totEleRead, nzcnt := [], Box(1000000, 1000000, -1, -1), 0, 0;
      tmpptr := new T[0];
      file := seq(planes * size, _ => zero);
    }

    /** GF_fits_set_values, single-extension part. */
    method SetUp(amps: seq<Amp>, modeChanged: bool)
      requires Upright(amps)
      modifies this
      ensures Contents() == SetValues(old(Contents()), amps, zero, modeChanged)
      ensures tmpptr == old(tmpptr) || fresh(tmpptr)
    {
      var b, i := Box(1000000, 1000000, -1, -1), 0;
      var table := [];
      while i < |amps|
        invariant 0 <= i <= |amps|
        invariant b == BoxOf(amps, i)
        invariant table == ArmedAmps(amps, i)
      {
        var a := amps[i];
        if a.discard == 0 {
          if a.xstart + a.Ncols() - 1 > b.maxx {
            b := b.(maxx := a.xstart + a.Ncols() - 1);
          }
          if a.ystart + a.nrows - 1 > b.maxy {
            b := b.(maxy := a.ystart + a.nrows - 1);
          }
          if a.xstart < b.minx {
            b := b.(minx := a.xstart);
          }
          if a.ystart < b.miny {
            b := b.(miny := a.ystart);
          }
          if a.kind & UPPER != 0 {
            a := a.(ystart := a.ystart + a.nrows);
          }
        }
        table := table + [a];
        i := i + 1;
      }
      fitsamp, totEleRead := table, 0;
      if modeChanged || b != box {
        tmpptr := new T[b.Area()](_ => zero);
      }
      box := b;
    }

    /** Adds a chunk of the raw frame; the block of amplifier i starts at cell dataptr[i] of data. */
    method WriteImage(amps: seq<Amp>, data: array<T>, dataptr: seq<nat>, eleRead: nat)
      requires data != tmpptr
      requires CanWrite(Contents(), amps, data[..], dataptr, eleRead, totPixels)
      modifies this, tmpptr
      ensures Contents() == WriteChunk(old(Contents()), amps, old(data[..]), dataptr, eleRead, totPixels, nzim, zero)
      ensures tmpptr == old(tmpptr) || fresh(tmpptr)
    {
      hide SetValues, WithChunk, Splice, BoxOf;
      if eleRead == 0 {
        return;
      }
      var e := if eleRead > totPixels then totPixels else eleRead;
      var ampdata := e / |amps|;
      ghost var was, pixels := Contents(), data[..];
      totEleRead := totEleRead + e;
      var i := 0;
      while i < |amps|
        invariant 0 <= i <= |amps|
        invariant tmpptr == old(tmpptr) && box == was.box && nzcnt == was.nzcnt && file == was.file
        invariant totEleRead == was.read + e
        invariant data[..] == pixels
        invariant fitsamp == Advanced(was.fitsamp, ampdata, i)
        invariant tmpptr[..] == WithChunks(was.image, was.box, was.fitsamp, pixels, dataptr, ampdata, i)
      {
        WriteAmp(i, data, dataptr[i], ampdata);
        i := i + 1;
      }
      if totEleRead == totPixels {
        file := Splice(file, box.Area() * nzcnt, tmpptr[..]);
        if nzim >= 1 {
          nzcnt := nzcnt + 1;
          SetUp(amps, false);
        }
      }
    }

    /** One amplifier: lower ones grow upwards after the copy, upper ones move down before it. */
    method WriteAmp(i: nat, data: array<T>, from: nat, m: nat)
      requires data != tmpptr && i < |fitsamp|
      requires tmpptr.Length == box.Area() && ChunkFits(fitsamp[i], box, m, from, data.Length)
      modifies this`fitsamp, tmpptr
      ensures fitsamp == old(fitsamp)[i := Advance(old(fitsamp[i]), m)]
      ensures tmpptr[..] == WithChunk(old(tmpptr[..]), box, old(fitsamp[i]), data[..], from, m)
    {
      hide WithChunk;
      if fitsamp[i].discard <= 0 {
        var chunkrows := m / fitsamp[i].Ncols();
        AddChunk(i, data, from, m);
        if fitsamp[i].kind & LOWER != 0 {
          fitsamp := fitsamp[i := fitsamp[i].(ystart := fitsamp[i].ystart + chunkrows)];
        } else {
          fitsamp := fitsamp[i := fitsamp[i].(ystart := fitsamp[i].ystart - chunkrows)];
        }
      } else {
        DiscardedChunk(tmpptr[..], box, fitsamp[i], data[..], from, m);
      }
    }

    method AddChunk(i: nat, data: array<T>, from: nat, m: nat)
      requires data != tmpptr && i < |fitsamp| && fitsamp[i].discard <= 0
      requires tmpptr.Length == box.Area() && ChunkFits(fitsamp[i], box, m, from, data.Length)
      modifies tmpptr
      ensures tmpptr[..] == WithChunk(old(tmpptr[..]), box, fitsamp[i], data[..], from, m)
    {
      hide Paste;
      var a := fitsamp[i];
      var chunkrows := m / a.Ncols();
      var ystart := if a.kind & LOWER != 0 then a.ystart else a.ystart - chunkrows;
      BoxCells(a, box, ystart, chunkrows, tmpptr.Length);
      SpliceWhole(tmpptr[..], WithChunk(tmpptr[..], box, a, data[..], from, m));
      AddSubimage(tmpptr, 0, tmpptr.Length, data, from, a.xstart - box.minx + 1, ystart - box.miny + 1, a.Ncols(),
                  chunkrows, box.Cols());
      assert data[..][from..from + a.Ncols() * chunkrows] == data[from..from + a.Ncols() * chunkrows];
    }
  }

  lemma DiscardedChunk<T>(image: seq<T>, b: Box, a: Amp, data: seq<T>, from: nat, m: nat)
    requires |image| == b.Area() && ChunkFits(a, b, m, from, |data|) && a.discard > 0
    ensures WithChunk(image, b, a, data, from, m) == image
  {
  }

  lemma BoxCells(a: Amp, b: Box, ystart: int, rows: nat, len: nat)
    requires a.Ncols() > 0 && len == b.Area()
    requires b.minx <= a.xstart && a.xstart + a.Ncols() - 1 <= b.maxx
    requires b.miny <= ystart && ystart + rows - 1 <= b.maxy
    ensures b.Cols() > 0 && a.xstart - b.minx + a.Ncols() <= b.Cols()
    ensures (ystart - b.miny + rows) * b.Cols() <= len
  {
    if b.Rows() > 0 {
      MulMonotone(ystart - b.miny + rows, b.Rows(), b.Cols());
    } else {
      assert ystart - b.miny + rows == 0;
    }
  }

  /** Every kept amplifier lies inside the bounding box. */
  lemma BoxHolds(amps: seq<Amp>, n: nat, i: nat)
    requires i < n <= |amps| && amps[i].discard == 0
    ensures var b, a := BoxOf(amps, n), amps[i];
            && b.minx <= a.xstart && a.xstart + a.Ncols() - 1 <= b.maxx
            && b.miny <= a.ystart && a.ystart + a.nrows - 1 <= b.maxy
  {
    if i < n - 1 {
      BoxHolds(amps, n - 1, i);
    }
  }

  /** A side of some kept amplifier among the first n: left, bottom, right or top. */
  predicate SideOfKept(amps: seq<Amp>, n: nat, side: Side, at: int)
    requires n <= |amps|
  {
    exists i :: 0 <= i < n && amps[i].discard == 0 && at == SideOf(amps[i], side)
  }

  datatype Side = LeftSide | BottomSide | RightSide | TopSide

  /** Where an amplifier's first and last column and row lie. */
  function SideOf(a: Amp, side: Side): int {
    match side
    case LeftSide => a.xstart
    case BottomSide => a.ystart
    case RightSide => a.xstart + (a.precols + a.datacols + a.postcols) - 1
    case TopSide => a.ystart + a.nrows - 1
  }

  /**
   * The box is the least one: a side is that of some kept amplifier or the value the search starts from,
   * and it never exceeds either.
   */
  lemma {:induction false} BoxSides(amps: seq<Amp>, n: nat)
    requires n <= |amps|
    ensures var b := BoxOf(amps, n);
            && (b.minx == 1000000 || SideOfKept(amps, n, LeftSide, b.minx))
            && (b.miny == 1000000 || SideOfKept(amps, n, BottomSide, b.miny))
            && (b.maxx == -1 || SideOfKept(amps, n, RightSide, b.maxx))
            && (b.maxy == -1 || SideOfKept(amps, n, TopSide, b.maxy))
            && b.minx <= 1000000 && b.miny <= 1000000 && b.maxx >= -1 && b.maxy >= -1
  {
    if n > 0 {
      BoxSides(amps, n - 1);
      var before := BoxOf(amps, n - 1);
      SideStays(amps, n, LeftSide, before.minx);
      SideStays(amps, n, BottomSide, before.miny);
      SideStays(amps, n, RightSide, before.maxx);
      SideStays(amps, n, TopSide, before.maxy);
      if amps[n - 1].discard == 0 {
        var a := amps[n - 1];
        assert forall side :: SideOfKept(amps, n, side, SideOf(a, side));
        assert a.Ncols() == a.precols + a.datacols + a.postcols;
      }
    }
  }

  lemma SideStays(amps: seq<Amp>, n: nat, side: Side, at: int)
    requires 0 < n <= |amps|
    ensures SideOfKept(amps, n - 1, side, at) ==> SideOfKept(amps, n, side, at)
  {
  }

  /** Kept amplifiers whose first, and last, column and row the search's starting values do not hide. */
  predicate SeenBy(amps: seq<Amp>, first: nat, last: nat)
    requires first < |amps| && last < |amps|
  {
    && amps[first].discard == 0 && amps[first].xstart <= 1000000 && amps[first].ystart <= 1000000
    && amps[last].discard == 0 && SideOf(amps[last], RightSide) >= -1 && SideOf(amps[last], TopSide) >= -1
  }

  predicate Holds(b: Box, a: Amp) {
    b.minx <= SideOf(a, LeftSide) && SideOf(a, RightSide) <= b.maxx &&
    b.miny <= SideOf(a, BottomSide) && SideOf(a, TopSide) <= b.maxy
  }

  /** Once the search has seen kept amplifiers, each side of the box is a side of a kept amplifier. */
  lemma SidesAreKept(amps: seq<Amp>, first: nat, last: nat)
    requires first < |amps| && last < |amps| && SeenBy(amps, first, last)
    ensures var b := BoxOf(amps, |amps|);
            && SideOfKept(amps, |amps|, LeftSide, b.minx) && SideOfKept(amps, |amps|, BottomSide, b.miny)
            && SideOfKept(amps, |amps|, RightSide, b.maxx) && SideOfKept(amps, |amps|, TopSide, b.maxy)
  {
    hide BoxOf;
    BoxSides(amps, |amps|);
    BoxHolds(amps, |amps|, first);
    BoxHolds(amps, |amps|, last);
    var low, high, b := amps[first], amps[last], BoxOf(amps, |amps|);
    assert b.minx == 1000000 ==> b.minx == SideOf(low, LeftSide);
    assert b.miny == 1000000 ==> b.miny == SideOf(low, BottomSide);
    assert b.maxx == -1 ==> b.maxx == SideOf(high, RightSide);
    assert b.maxy == -1 ==> b.maxy == SideOf(high, TopSide);
  }

  /** Every box that holds the kept amplifiers holds the box. */
  lemma LeastBox(amps: seq<Amp>, first: nat, last: nat, other: Box)
    requires first < |amps| && last < |amps| && SeenBy(amps, first, last)
    requires forall j :: 0 <= j < |amps| && amps[j].discard == 0 ==> Holds(other, amps[j])
    ensures var b := BoxOf(amps, |amps|);
            other.minx <= b.minx && other.miny <= b.miny && b.maxx <= other.maxx && b.maxy <= other.maxy
  {
    hide BoxOf;
    SidesAreKept(amps, first, last);
  }

  // ---- calls at the edges ----

  /**
   * One amplifier's chunk, for every value of discard: a positive one leaves the image and the amplifier alone, and
   * any other copies its rows, upwards behind the last ones for a lower amplifier and below them for the others.
   */
  lemma ChunkOfAmp<T>(image: seq<T>, b: Box, a: Amp, data: seq<T>, from: nat, m: nat, y: int, x: int)
    requires |image| == b.Area() && ChunkFits(a, b, m, from, |data|)
    requires b.miny <= y <= b.maxy && b.minx <= x <= b.maxx
    ensures var n := a.precols + a.datacols + a.postcols;
            var cell := (y - b.miny) * b.Cols() + (x - b.minx);
            0 <= cell < |image| &&
            if a.discard > 0 then
              WithChunk(image, b, a, data, from, m) == image && Advance(a, m) == a
            else
              n > 0 &&
              var next := if a.kind & 0xC != 0 then a.ystart + m / n else a.ystart - m / n;
              var low := if a.kind & 0xC != 0 then a.ystart else a.ystart - m / n;
              Advance(a, m) == a.(ystart := next) &&
              if low <= y < low + m / n && a.xstart <= x < a.xstart + n then
                0 <= from + (y - low) * n + (x - a.xstart) < |data| &&
                WithChunk(image, b, a, data, from, m)[cell] == data[from + (y - low) * n + (x - a.xstart)]
              else WithChunk(image, b, a, data, from, m)[cell] == image[cell]
  {
    hide Paste;
    CellInside(b.Cols(), b.Rows(), y - b.miny, x - b.minx);
    assert b.Area() == b.Cols() * b.Rows();
    if a.discard <= 0 {
      var rows, low := m / a.Ncols(), Top(a, m / a.Ncols());
      var sub := data[from..from + a.Ncols() * rows];
      PasteAt(image, b.Cols(), sub, a.xstart - b.minx, low - b.miny, a.Ncols(), rows, y - b.miny, x - b.minx);
      if low <= y < low + rows && a.xstart <= x < a.xstart + a.Ncols() {
        CellInside(a.Ncols(), rows, y - low, x - a.xstart);
      }
    }
  }

  /** A call without pixels changes nothing. */
  lemma EmptyCall<T>(s: State<T>, amps: seq<Amp>, data: seq<T>, dataptr: seq<nat>, totPixels: nat, nzim: int, zero: T)
    requires CanWrite(s, amps, data, dataptr, 0, totPixels)
    ensures WriteChunk(s, amps, data, dataptr, 0, totPixels, nzim, zero) == s
  {
    hide CanWrite;
  }

  /** Pixels beyond the frame's are not looked at. */
  lemma LongCall<T>(s: State<T>, amps: seq<Amp>, data: seq<T>, dataptr: seq<nat>, extra: nat, totPixels: nat,
                    nzim: int, zero: T)
    requires CanWrite(s, amps, data, dataptr, totPixels, totPixels) && totPixels > 0
    ensures CanWrite(s, amps, data, dataptr, totPixels + extra, totPixels)
    ensures var whole := WriteChunk(s, amps, data, dataptr, totPixels, totPixels, nzim, zero);
            WriteChunk(s, amps, data, dataptr, totPixels + extra, totPixels, nzim, zero) == whole
  {
    hide ChunksFit, WithChunks, Advanced, Upright, Splice, SetValues;
    assert Clamp(totPixels + extra, totPixels) == totPixels == Clamp(totPixels, totPixels);
  }

  /** Without a cube the writer keeps its place after the last pixel: the plane is written, nothing starts over. */
  lemma LastCall<T>(s: State<T>, amps: seq<Amp>, data: seq<T>, dataptr: seq<nat>, eleRead: nat, totPixels: nat,
                    nzim: int, zero: T)
    requires CanWrite(s, amps, data, dataptr, eleRead, totPixels)
    requires 0 < eleRead <= totPixels && s.read + eleRead == totPixels
    ensures var s' := WriteChunk(s, amps, data, dataptr, eleRead, totPixels, nzim, zero);
            && |s'.file| == |s.file|
            && s'.read == (if nzim >= 1 then 0 else totPixels)
            && s'.nzcnt == (if nzim >= 1 then s.nzcnt + 1 else s.nzcnt)
            && (nzim < 1 ==>
                 s'.box == s.box && s'.file[s.box.Area() * s.nzcnt..][..s.box.Area()] == s'.image)
  {
    hide WithChunks, BoxOf, Advanced;
  }

  /** Starting a frame keeps the image exactly when neither the mode nor the box has changed. */
  lemma StartOfFrame<T>(s: State<T>, amps: seq<Amp>, zero: T, modeChanged: bool)
    ensures var s' := SetValues(s, amps, zero, modeChanged);
            && s'.read == 0 && s'.nzcnt == s.nzcnt && s'.file == s.file && s'.box == BoxOf(amps, |amps|)
            && (!modeChanged && s'.box == s.box ==> s'.image == s.image)
            && (modeChanged || s'.box != s.box ==>
                 |s'.image| == s'.box.Area() && forall p :: 0 <= p < |s'.image| ==> s'.image[p] == zero)
            && |s'.fitsamp| == |amps|
            && forall i :: 0 <= i < |amps| ==>
                 s'.fitsamp[i] == if amps[i].discard == 0 && amps[i].kind & 0x3 != 0
                                  then amps[i].(ystart := amps[i].ystart + amps[i].nrows) else amps[i]
  {
    hide BoxOf;
  }
}
