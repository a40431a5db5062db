/** Multi-extension images: GF_writeImage_Multiple, one FITS extension per amplifier. */
module Extensions {
  import opened Grid
  import opened Amplifiers
  import opened Orientation
  import opened Rotation
  import opened Subimage
  import U = Unscramble

  /** What the writer keeps for one amplifier: ystart stays 1, ext is the extension in the file. */
  datatype Ext<T> = Ext(amp: Amp, xstart: int, read: nat, tmp: seq<T>, ext: seq<T>)

  /** A rotated amplifier fills its image from the last column back, or from the first one on. */
  predicate FillsBackwards(amp: Amp) {
    if Lower(amp.kind) then amp.rotate == 90 else amp.rotate != 90
  }

  function FirstColumn(amp: Amp): int {
    if amp.rotate != 0 && FillsBackwards(amp) then 1 + amp.nrows else 1
  }

  ghost predicate CanWrite<T>(e: Ext<T>, perAmp: nat, m: nat) {
    && |e.ext| == perAmp && e.read + m <= perAmp
    && (e.amp.rotate != 0 ==>
          && e.amp.Ncols() > 0 && e.amp.nrows > 0 && |e.tmp| == perAmp == e.amp.Ncols() * e.amp.nrows
          && 1 <= Column(e, m) && Column(e, m) - 1 + U.PerBlock(m, e.amp.Ncols()) <= e.amp.nrows)
  }

  /** The column a chunk of m pixels starts in. */
  function Column<T>(e: Ext<T>, m: nat): int
    requires e.amp.Ncols() > 0
  {
    if FillsBackwards(e.amp) then e.xstart - U.PerBlock(m, e.amp.Ncols()) else e.xstart
  }

  function Write<T>(e: Ext<T>, perAmp: nat, block: seq<T>): Ext<T>
    requires CanWrite(e, perAmp, |block|)
  {
    var read := e.read + |block|;
    if e.amp.rotate == 0 then
      var firstel := if e.amp.kind == LL || e.amp.kind == LR then read - |block| else perAmp - read;
      e.(read := read, ext := Splice(e.ext, firstel, block))
    else
      var chunkcols := U.PerBlock(|block|, e.amp.Ncols());
      WholeRows(|block|, e.amp.Ncols());
      var tmp := Paste(e.tmp, e.amp.nrows, block[..chunkcols * e.amp.Ncols()], Column(e, |block|) - 1, 0,
                       chunkcols, e.amp.Ncols());
      e.(read := read, tmp := tmp,
         xstart := if FillsBackwards(e.amp) then e.xstart - chunkcols else e.xstart + chunkcols,
         ext := if read >= perAmp then tmp else e.ext)
  }

  class ExtensionWriter<T(0)> {
    const amp: Amp
    const perAmp: nat
    const tmpptr: array<T>
    const ext: array<T>
    var xstart: int
    var totEleRead: nat

    ghost function Contents(): Ext<T>
      reads this, tmpptr, ext
    {
      Ext(amp, xstart, totEleRead, tmpptr[..], ext[..])
    }

    constructor (amp: Amp, perAmp: nat, zero: T)
      ensures Contents() == Ext(amp, FirstColumn(amp), 0, seq(perAmp, _ => zero), seq(perAmp, _ => zero))
      ensures this.perAmp == perAmp && fresh(tmpptr) && fresh(ext) && tmpptr != ext
    {
      this.amp, this.perAmp := amp, perAmp;
      tmpptr := new T[perAmp](_ => zero);
      ext := new T[perAmp](_ => zero);
      xstart, totEleRead := FirstColumn(amp), 0;
    }

    /** Adds a rotated chunk to the amplifier's own buffer, in column `column`. */
    method AddRotated(data: array<T>, from: nat, m: nat, column: int)
      requires data != tmpptr && from + m <= data.Length && CanWrite(Contents(), perAmp, m)
      requires amp.rotate != 0 && column == Column(Contents(), m)
      modifies tmpptr
      ensures var cols := U.PerBlock(m, amp.Ncols());
              && cols * amp.Ncols() <= m
              && tmpptr[..] == Paste(old(tmpptr[..]), amp.nrows, data[from..from + cols * amp.Ncols()],
                                     column - 1, 0, cols, amp.Ncols())
    {
      hide Splice, Paste;
      var chunkcols := U.PerBlock(m, amp.Ncols());
      WholeRows(m, amp.Ncols());
      ghost var was, sub := tmpptr[..], data[from..from + chunkcols * amp.Ncols()];
      SpliceWhole(was, Paste(was, amp.nrows, sub, column - 1, 0, chunkcols, amp.Ncols()));
      AddSubimage(tmpptr, 0, perAmp, data, from, column, 1, chunkcols, amp.Ncols(), amp.nrows);
    }

    /** One pass of the loop over amplifiers, for a kept one; its block starts at cell `from` of data. */
    method WriteBlock(data: array<T>, from: nat, m: nat)
      requires tmpptr != ext && data != tmpptr && data != ext
      requires from + m <= data.Length && CanWrite(Contents(), perAmp, m)
      modifies this, tmpptr, ext
      ensures Contents() == Write(old(Contents()), perAmp, data[from..from + m])
    {
      hide Splice, Paste;
      if amp.rotate == 0 {
        totEleRead := totEleRead + m;
        var firstel := if amp.kind == LL || amp.kind == LR then totEleRead - m else perAmp - totEleRead;
        CopyCells(ext, firstel, data, from, m);
      } else {
        WriteRotatedBlock(data, from, m);
      }
    }

    method WriteRotatedBlock(data: array<T>, from: nat, m: nat)
      requires tmpptr != ext && data != tmpptr && data != ext && amp.rotate != 0
      requires from + m <= data.Length && CanWrite(Contents(), perAmp, m)
      modifies this, tmpptr, ext
      ensures Contents() == Write(old(Contents()), perAmp, data[from..from + m])
    {
      hide Splice, Paste;
      var chunkcols := U.PerBlock(m, amp.Ncols());
      WholeRows(m, amp.Ncols());
      PrefixOfSlice(data[..], from, m, chunkcols * amp.Ncols());
      assert data[..][from..from + m] == data[from..from + m];
      assert data[..][from..from + chunkcols * amp.Ncols()] == data[from..from + chunkcols * amp.Ncols()];
      if FillsBackwards(amp) {
        AddRotated(data, from, m, xstart - chunkcols);
        xstart := xstart - chunkcols;
      } else {
        AddRotated(data, from, m, xstart);
        xstart := xstart + chunkcols;
      }
      totEleRead := totEleRead + m;
      if totEleRead >= perAmp {
        WholeCopy(ext[..], tmpptr[..]);
        CopyCells(ext, 0, tmpptr, 0, perAmp);
      }
    }
  }

  lemma PrefixOfSlice<T>(s: seq<T>, from: nat, m: nat, k: nat)
    requires k <= m && from + m <= |s|
    ensures s[from..from + m][..k] == s[from..from + k]
  {
  }

  lemma WholeCopy<T>(was: seq<T>, now: seq<T>)
    requires |was| == |now|
    ensures Splice(was, 0, now[..|now|]) == now
  {
  }

  // ---- an amplifier's image in chunks ----

  /** Where a chunk's rows lie in the whole unscrambled block. */
  function ChunkBase(amp: Amp, d: nat, h: nat): int {
    if Lower(amp.kind) then d else amp.nrows - d - h
  }

  predicate Regular(amp: Amp) {
    amp.Ncols() > 0 && amp.nrows > 0 && OneHot(amp.kind) && amp.rotate in {0, 90, 270, -90}
  }

  /** Read-out rows d to d + h of a channel. */
  function Rows<T>(amp: Amp, chan: seq<T>, d: nat, h: nat): (s: seq<T>)
    requires |chan| == amp.Ncols() * amp.nrows && d + h <= amp.nrows
    ensures |s| == amp.Ncols() * h
  {
    RowsInside(amp, d, h);
    chan[amp.Ncols() * d..amp.Ncols() * d + amp.Ncols() * h]
  }

  lemma RowsInside(amp: Amp, d: nat, h: nat)
    requires d + h <= amp.nrows
    ensures 0 <= amp.Ncols() * d && 0 <= amp.Ncols() * h
    ensures amp.Ncols() * d + amp.Ncols() * h == amp.Ncols() * (d + h) <= amp.Ncols() * amp.nrows
  {
    MulMonotone(0, d, amp.Ncols());
    MulMonotone(0, h, amp.Ncols());
    MulSplit(d, h, amp.Ncols());
    MulMonotone(d + h, amp.nrows, amp.Ncols());
  }

  /** Unscrambling a chunk gives the rows of the unscrambled whole. */
  lemma ChunkOfWhole<T>(amp: Amp, chan: seq<T>, prev: seq<T>, d: nat, h: nat, r: int, c: int)
    requires Regular(amp) && |chan| == amp.Ncols() * amp.nrows && d + h <= amp.nrows
    requires |prev| == amp.Ncols() * h && 0 <= r < h && 0 <= c < amp.Ncols()
    ensures 0 <= Cell(amp.Ncols(), r, c) < |prev|
    ensures 0 <= Cell(amp.Ncols(), ChunkBase(amp, d, h) + r, c) < |chan|
    ensures Unscrambled(prev, Rows(amp, chan, d, h), amp.kind, amp.Ncols())[Cell(amp.Ncols(), r, c)]
         == Unscrambled(chan, chan, amp.kind, amp.Ncols())[Cell(amp.Ncols(), ChunkBase(amp, d, h) + r, c)]
  {
    hide Unscrambled;
    var ncols, kind, base := amp.Ncols(), amp.kind, ChunkBase(amp, d, h);
    RowsInside(amp, d, h);
    UnscrambledAt(prev, Rows(amp, chan, d, h), kind, ncols, h, r, c);
    UnscrambledAt(chan, chan, kind, ncols, amp.nrows, base + r, c);
    var y, x := TurnRow(kind, h, r), TurnCol(kind, ncols, c);
    MulSplit(d, y, ncols);
    assert Cell(ncols, d + y, x) == ncols * d + Cell(ncols, y, x);
    assert TurnRow(kind, amp.nrows, base + r) == d + y;
  }

  /** The block one unscrambling call leaves for a chunk of h rows; junk is what it is turned in was made with. */
  function ChunkBlock<T>(amp: Amp, chan: seq<T>, prev: seq<T>, d: nat, h: nat, junk: seq<T>): (s: seq<T>)
    requires Regular(amp) && |chan| == amp.Ncols() * amp.nrows && d + h <= amp.nrows && |prev| == amp.Ncols() * h
    ensures |s| == amp.Ncols() * h
  {
    U.Block(prev, Rows(amp, chan, d, h), amp, junk)
  }

  /** The image the extension is to hold: the whole amplifier, unscrambled and turned in one piece. */
  function WholeImage<T>(amp: Amp, chan: seq<T>): (s: seq<T>)
    requires Regular(amp) && |chan| == amp.Ncols() * amp.nrows
    ensures |s| == |chan|
  {
    var u := Unscrambled(chan, chan, amp.kind, amp.Ncols());
    if amp.rotate == 0 then u else Turned(u, amp.Ncols(), amp.nrows, amp.rotate)
  }

  /** Whether the rotation, if the amplifier needs one, is exact for a chunk of h rows. */
  predicate Turns(amp: Amp, h: nat) {
    amp.rotate == 0 || h == 0 || Turnable(amp.Ncols(), h, amp.rotate)
  }

  /** Upright amplifiers: the chunk is a run of rows of the whole image. */
  lemma UprightChunk<T>(amp: Amp, chan: seq<T>, prev: seq<T>, d: nat, h: nat, junk: seq<T>)
    requires Regular(amp) && amp.rotate == 0 && |chan| == amp.Ncols() * amp.nrows && d + h <= amp.nrows
    requires |prev| == amp.Ncols() * h
    ensures 0 <= Cell(amp.Ncols(), ChunkBase(amp, d, h), 0)
    ensures Cell(amp.Ncols(), ChunkBase(amp, d, h), 0) + |prev| <= |chan|
    ensures var at := Cell(amp.Ncols(), ChunkBase(amp, d, h), 0);
            ChunkBlock(amp, chan, prev, d, h, junk) == WholeImage(amp, chan)[at..at + |prev|]
  {
    hide U.Block, Unscrambled, Rows;
    var ncols, base := amp.Ncols(), ChunkBase(amp, d, h);
    RowsInside(amp, base, h);
    U.TurnableBlock(prev, Rows(amp, chan, d, h), amp, junk, h);
    var chunk, whole, at := ChunkBlock(amp, chan, prev, d, h, junk), WholeImage(amp, chan), Cell(ncols, base, 0);
    forall p | 0 <= p < |prev|
      ensures chunk[p] == whole[at..at + |prev|][p]
    {
      CellJoin(ncols, h, p);
      ChunkOfWhole(amp, chan, prev, d, h, p / ncols, p % ncols);
      MulSplit(base, p / ncols, ncols);
    }
  }

  /** Rotated amplifiers: a chunk that is turned exactly is a run of columns of the whole image. */
  lemma RotatedChunk<T>(amp: Amp, chan: seq<T>, prev: seq<T>, d: nat, h: nat, junk: seq<T>, j: int, i: int)
    requires Regular(amp) && amp.rotate != 0 && |chan| == amp.Ncols() * amp.nrows && d + h <= amp.nrows
    requires |prev| == amp.Ncols() * h && 0 <= j < amp.Ncols() && 0 <= i < h && Turns(amp, h)
    ensures 0 <= Cell(h, j, i) < |prev|
    ensures 0 <= Cell(amp.nrows, j, RotatedBase(amp, d, h) + i) < |chan|
    ensures ChunkBlock(amp, chan, prev, d, h, junk)[Cell(h, j, i)]
         == WholeImage(amp, chan)[Cell(amp.nrows, j, RotatedBase(amp, d, h) + i)]
  {
    hide U.Block, Unscrambled, Rows, Turned;
    var ncols, back := amp.Ncols(), amp.rotate == 90;
    U.TurnableBlock(prev, Rows(amp, chan, d, h), amp, junk, h);
    var r, c := if back then h - 1 - i else i, if back then j else ncols - 1 - j;
    ChunkOfWhole(amp, chan, prev, d, h, r, c);
    TurnedAt(Unscrambled(prev, Rows(amp, chan, d, h), amp.kind, ncols), ncols, h, amp.rotate, r, c);
    TurnedAt(Unscrambled(chan, chan, amp.kind, ncols), ncols, amp.nrows, amp.rotate, ChunkBase(amp, d, h) + r, c);
  }

  /** In any other chunk of a rotated amplifier the last cell is never written. */
  lemma ChunkKeepsJunk<T>(amp: Amp, chan: seq<T>, prev: seq<T>, d: nat, h: nat, junk: seq<T>)
    requires Regular(amp) && |chan| == amp.Ncols() * amp.nrows && d + h <= amp.nrows
    requires |prev| == |junk| == amp.Ncols() * h && !Turns(amp, h)
    ensures |prev| > 0 && ChunkBlock(amp, chan, prev, d, h, junk)[|prev| - 1] == junk[|prev| - 1]
  {
    hide Unscrambled, Rows, U.PerBlock, LastSource;
    var u := Unscrambled(prev, Rows(amp, chan, d, h), amp.kind, amp.Ncols());
    U.WholeParts(amp.Ncols(), h);
    assert u[..|prev|] == u;
    LastCellWrittenIff(amp.Ncols(), h, amp.rotate);
  }

  function RotatedBase(amp: Amp, d: nat, h: nat): int {
    if FillsBackwards(amp) then amp.nrows - d - h else d
  }

  // ---- a whole amplifier ----

  predicate GrowsUp(amp: Amp) {
    if amp.rotate == 0 then Lower(amp.kind) else !FillsBackwards(amp)
  }

  /** Rows of an upright image, columns of a rotated one, that are finished after d read-out rows. */
  predicate Finished(amp: Amp, d: nat, k: int) {
    if GrowsUp(amp) then 0 <= k < d else amp.nrows - d <= k < amp.nrows
  }

  /** The cell of position k along the growing direction, and position j across it. */
  function ImageCell(amp: Amp, k: int, j: int): int {
    if amp.rotate == 0 then Cell(amp.Ncols(), k, j) else Cell(amp.nrows, j, k)
  }

  /** The buffer the image grows in: the extension itself, or the buffer for rotated amplifiers. */
  function Growing<T>(e: Ext<T>): seq<T> {
    if e.amp.rotate == 0 then e.ext else e.tmp
  }

  lemma ImageCellInside(amp: Amp, k: int, j: int)
    requires 0 <= k < amp.nrows && 0 <= j < amp.Ncols()
    ensures 0 <= ImageCell(amp, k, j) < amp.Ncols() * amp.nrows
  {
    CellInside(amp.Ncols(), amp.nrows, k, j);
    CellInside(amp.nrows, amp.Ncols(), j, k);
  }

  /** The writer after d read-out rows of the amplifier, whatever its buffers hold. */
  ghost predicate Placed<T>(e: Ext<T>, amp: Amp, chan: seq<T>, d: nat) {
    && Regular(amp) && |chan| == amp.Ncols() * amp.nrows && d <= amp.nrows
    && e.amp == amp && e.read == amp.Ncols() * d
    && |e.ext| == |chan| && (amp.rotate != 0 ==> |e.tmp| == |chan|)
    && e.xstart == (if amp.rotate == 0 then 1 else if FillsBackwards(amp) then 1 + amp.nrows - d else 1 + d)
    && (amp.rotate != 0 && d == amp.nrows ==> e.ext == e.tmp)
  }

  /** The writer after d read-out rows that all landed where they belong. */
  ghost predicate InExtension<T>(e: Ext<T>, amp: Amp, chan: seq<T>, d: nat) {
    Placed(e, amp, chan, d) && FinishedCells(Growing(e), amp, chan, d)
  }

  ghost predicate FinishedCells<T>(image: seq<T>, amp: Amp, chan: seq<T>, d: nat)
    requires Regular(amp) && |image| == |chan| == amp.Ncols() * amp.nrows
  {
    forall k, j :: 0 <= k < amp.nrows && 0 <= j < amp.Ncols() && Finished(amp, d, k) ==>
      CellAgrees(image, WholeImage(amp, chan), ImageCell(amp, k, j))
  }

  /** Rows that were finished before are still as they were. */
  ghost predicate KeepsFinished<T>(image: seq<T>, after: seq<T>, amp: Amp, d: nat) {
    forall k, j :: 0 <= k < amp.nrows && 0 <= j < amp.Ncols() && Finished(amp, d, k) ==>
      CellAgrees(after, image, ImageCell(amp, k, j))
  }

  ghost predicate CellAgrees<T>(s: seq<T>, t: seq<T>, p: int) {
    0 <= p < |s| && p < |t| && s[p] == t[p]
  }

  lemma FullyFinished<T>(image: seq<T>, amp: Amp, chan: seq<T>)
    requires Regular(amp) && |image| == |chan| == amp.Ncols() * amp.nrows
    requires FinishedCells(image, amp, chan, amp.nrows)
    ensures image == WholeImage(amp, chan)
  {
    hide WholeImage;
    var whole := WholeImage(amp, chan);
    forall p | 0 <= p < |image|
      ensures image[p] == whole[p]
    {
      var (w, h) := if amp.rotate == 0 then (amp.Ncols(), amp.nrows) else (amp.nrows, amp.Ncols());
      CellJoin(w, h, p);
      var k, j := if amp.rotate == 0 then p / w else p % w, if amp.rotate == 0 then p % w else p / w;
      assert CellAgrees(image, whole, ImageCell(amp, k, j));
    }
  }

  /** A chunk's writing position, along the growing direction. */
  function Offset(amp: Amp, d: nat, h: nat): int {
    if amp.rotate == 0 then ChunkBase(amp, d, h) else RotatedBase(amp, d, h)
  }

  lemma UprightStep<T>(image: seq<T>, amp: Amp, chan: seq<T>, prev: seq<T>, d: nat, h: nat, junk: seq<T>)
    requires Regular(amp) && amp.rotate == 0 && |image| == |chan| == amp.Ncols() * amp.nrows && d + h <= amp.nrows
    requires |prev| == amp.Ncols() * h
    ensures 0 <= Cell(amp.Ncols(), Offset(amp, d, h), 0) <= |chan| - |prev|
    ensures var block := ChunkBlock(amp, chan, prev, d, h, junk);
            var after := Splice(image, Cell(amp.Ncols(), Offset(amp, d, h), 0), block);
            && KeepsFinished(image, after, amp, d)
            && (FinishedCells(image, amp, chan, d) ==> FinishedCells(after, amp, chan, d + h))
  {
    hide WholeImage, ChunkBlock;
    UprightChunk(amp, chan, prev, d, h, junk);
    var at, chunk := Cell(amp.Ncols(), Offset(amp, d, h), 0), ChunkBlock(amp, chan, prev, d, h, junk);
    var whole, after := WholeImage(amp, chan), Splice(image, at, chunk);
    forall k, j | 0 <= k < amp.nrows && 0 <= j < amp.Ncols() && Finished(amp, d + h, k)
      ensures Finished(amp, d, k) ==> CellAgrees(after, image, ImageCell(amp, k, j))
      ensures !Finished(amp, d, k) ==> CellAgrees(after, whole, ImageCell(amp, k, j))
    {
      ImageCellInside(amp, k, j);
      UprightCell(amp, d, h, k, j);
      var p := ImageCell(amp, k, j);
      if at <= p < at + |chunk| {
        assert chunk[p - at] == whole[at..at + |prev|][p - at];
      }
    }
    if FinishedCells(image, amp, chan, d) {
      Carry(image, after, whole, amp, d, h);
    }
  }

  /** The cells of a chunk are those of the rows it finishes. */
  lemma UprightCell(amp: Amp, d: nat, h: nat, k: int, j: int)
    requires amp.rotate == 0 && d + h <= amp.nrows && 0 <= j < amp.Ncols() && Finished(amp, d + h, k)
    ensures var at := Cell(amp.Ncols(), Offset(amp, d, h), 0);
            at <= ImageCell(amp, k, j) < at + amp.Ncols() * h <==> !Finished(amp, d, k)
  {
    var at, r := Cell(amp.Ncols(), Offset(amp, d, h), 0), k - Offset(amp, d, h);
    MulSplit(Offset(amp, d, h), r, amp.Ncols());
    assert ImageCell(amp, k, j) == at + Cell(amp.Ncols(), r, j);
    if 0 <= r < h {
      CellInside(amp.Ncols(), h, r, j);
    } else if r < 0 {
      MulMonotone(r, -1, amp.Ncols());
    } else {
      MulMonotone(h, r, amp.Ncols());
    }
  }

  /** Kept cells and new cells together. */
  lemma Carry<T>(image: seq<T>, after: seq<T>, whole: seq<T>, amp: Amp, d: nat, h: nat)
    requires forall k, j :: 0 <= k < amp.nrows && 0 <= j < amp.Ncols() && Finished(amp, d + h, k) ==>
               && (Finished(amp, d, k) ==> CellAgrees(after, image, ImageCell(amp, k, j)))
               && (!Finished(amp, d, k) ==> CellAgrees(after, whole, ImageCell(amp, k, j)))
    requires forall k, j :: 0 <= k < amp.nrows && 0 <= j < amp.Ncols() && Finished(amp, d, k) ==>
               CellAgrees(image, whole, ImageCell(amp, k, j))
    ensures forall k, j :: 0 <= k < amp.nrows && 0 <= j < amp.Ncols() && Finished(amp, d + h, k) ==>
              CellAgrees(after, whole, ImageCell(amp, k, j))
  {
    hide ImageCell;
  }

  /** The cell of the image that the last cell of a rotated chunk comes to. */
  function LastOf(amp: Amp, d: nat, h: nat): int {
    ImageCell(amp, Offset(amp, d, h) + h - 1, amp.Ncols() - 1)
  }

  lemma RotatedStep<T>(image: seq<T>, amp: Amp, chan: seq<T>, prev: seq<T>, d: nat, h: nat, junk: seq<T>)
    requires Regular(amp) && amp.rotate != 0 && |image| == |chan| == amp.Ncols() * amp.nrows && d + h <= amp.nrows
    requires |prev| == amp.Ncols() * h
    ensures h * amp.Ncols() == |prev| && 0 <= Offset(amp, d, h)
    ensures var block := ChunkBlock(amp, chan, prev, d, h, junk);
            var after := Paste(image, amp.nrows, block, Offset(amp, d, h), 0, h, amp.Ncols());
            && KeepsFinished(image, after, amp, d)
            && (Turns(amp, h) && FinishedCells(image, amp, chan, d) ==> FinishedCells(after, amp, chan, d + h))
            && (h > 0 ==> 0 <= LastOf(amp, d, h) < |after| && after[LastOf(amp, d, h)] == block[|prev| - 1])
  {
    hide WholeImage, ChunkBlock, Paste;
    assert h * amp.Ncols() == |prev|;
    var x0, chunk, whole := Offset(amp, d, h), ChunkBlock(amp, chan, prev, d, h, junk), WholeImage(amp, chan);
    var after := Paste(image, amp.nrows, chunk, x0, 0, h, amp.Ncols());
    forall k, j | 0 <= k < amp.nrows && 0 <= j < amp.Ncols() && Finished(amp, d + h, k)
      ensures Finished(amp, d, k) ==> CellAgrees(after, image, ImageCell(amp, k, j))
      ensures !Finished(amp, d, k) && Turns(amp, h) ==> CellAgrees(after, whole, ImageCell(amp, k, j))
    {
      ImageCellInside(amp, k, j);
      PasteAt(image, amp.nrows, chunk, x0, 0, h, amp.Ncols(), j, k);
      if Covers(x0, 0, h, amp.Ncols(), j, k) && Turns(amp, h) {
        RotatedChunk(amp, chan, prev, d, h, junk, j, k - x0);
      }
    }
    if Turns(amp, h) && FinishedCells(image, amp, chan, d) {
      Carry(image, after, whole, amp, d, h);
    }
    if h > 0 {
      ImageCellInside(amp, x0 + h - 1, amp.Ncols() - 1);
      PasteAt(image, amp.nrows, chunk, x0, 0, h, amp.Ncols(), amp.Ncols() - 1, x0 + h - 1);
      LastCell(amp.Ncols(), h);
    }
  }

  /** A chunk of h rows, what its block held before it was unscrambled, and what it is turned in was made with. */
  datatype Chunk<T> = Chunk(h: nat, prev: seq<T>, junk: seq<T>)

  ghost predicate Splits<T>(amp: Amp, chunks: seq<Chunk<T>>, rows: nat) {
    if chunks == [] then rows == 0
    else
      && chunks[0].h <= rows && |chunks[0].prev| == amp.Ncols() * chunks[0].h
      && Splits(amp, chunks[1..], rows - chunks[0].h)
  }

  /** Every chunk is turned exactly, or needs no turning. */
  predicate AllTurn<T>(amp: Amp, chunks: seq<Chunk<T>>) {
    forall i :: 0 <= i < |chunks| ==> Turns(amp, chunks[i].h)
  }

  lemma ChunkRows(amp: Amp, h: nat)
    requires amp.Ncols() > 0
    ensures amp.Ncols() * h >= 0 && amp.Ncols() * h / amp.Ncols() == h && h * amp.Ncols() == amp.Ncols() * h
  {
    CellSplit(amp.Ncols(), h, 0);
    MulMonotone(0, h, amp.Ncols());
  }

  lemma FullyRead(amp: Amp, d: nat)
    requires Regular(amp) && d <= amp.nrows
    ensures amp.Ncols() * d == amp.Ncols() * amp.nrows <==> d == amp.nrows
  {
    if d < amp.nrows {
      MulMonotone(d + 1, amp.nrows, amp.Ncols());
      MulSplit(d, 1, amp.Ncols());
    }
  }

  lemma ChunkStep<T>(e: Ext<T>, amp: Amp, chan: seq<T>, prev: seq<T>, d: nat, h: nat, junk: seq<T>)
    requires Placed(e, amp, chan, d) && d + h <= amp.nrows && |prev| == amp.Ncols() * h
    ensures CanWrite(e, |chan|, |ChunkBlock(amp, chan, prev, d, h, junk)|)
    ensures var block := ChunkBlock(amp, chan, prev, d, h, junk);
            var e' := Write(e, |chan|, block);
            && Placed(e', amp, chan, d + h)
            && KeepsFinished(Growing(e), Growing(e'), amp, d)
            && (Turns(amp, h) && InExtension(e, amp, chan, d) ==> InExtension(e', amp, chan, d + h))
            && (amp.rotate != 0 && h > 0 ==>
                  && 0 <= LastOf(amp, d, h) < |Growing(e')|
                  && Growing(e')[LastOf(amp, d, h)] == block[|prev| - 1])
  {
    hide ChunkBlock, FinishedCells, KeepsFinished, Splice, Paste;
    ChunkRows(amp, h);
    RowsInside(amp, d, h);
    FullyRead(amp, d + h);
    var block := ChunkBlock(amp, chan, prev, d, h, junk);
    if amp.rotate == 0 {
      UprightStep(e.ext, amp, chan, prev, d, h, junk);
      FirstElement(amp, d, h);
    } else {
      assert block[..h * amp.Ncols()] == block;
      RotatedStep(e.tmp, amp, chan, prev, d, h, junk);
    }
  }

  /** The first element written is where the chunk's rows belong. */
  lemma FirstElement(amp: Amp, d: nat, h: nat)
    requires Regular(amp) && amp.rotate == 0 && d + h <= amp.nrows
    ensures amp.kind == LL || amp.kind == LR ==> Cell(amp.Ncols(), Offset(amp, d, h), 0) == amp.Ncols() * d
    ensures amp.kind == UL || amp.kind == UR ==>
              Cell(amp.Ncols(), Offset(amp, d, h), 0) == amp.Ncols() * amp.nrows - (amp.Ncols() * d + amp.Ncols() * h)
  {
    MulSplit(amp.nrows - d - h, d + h, amp.Ncols());
    MulSplit(d, h, amp.Ncols());
  }

  /** The rest of an amplifier's image, chunk by chunk. */
  ghost function Run<T>(e: Ext<T>, amp: Amp, chan: seq<T>, chunks: seq<Chunk<T>>, d: nat): Ext<T>
    requires Placed(e, amp, chan, d) && Splits(amp, chunks, amp.nrows - d)
    decreases |chunks|
  {
    hide ChunkBlock, Write, CanWrite, Placed, KeepsFinished, InExtension;
    if chunks == [] then e
    else
      NextChunk(e, amp, chan, chunks, d);
      Run(Written(e, amp, chan, chunks[0], d), amp, chan, chunks[1..], d + chunks[0].h)
  }

  /** The writer after one chunk. */
  function Written<T>(e: Ext<T>, amp: Amp, chan: seq<T>, chunk: Chunk<T>, d: nat): Ext<T>
    requires Placed(e, amp, chan, d) && d + chunk.h <= amp.nrows && |chunk.prev| == amp.Ncols() * chunk.h
  {
    hide ChunkBlock, CanWrite, KeepsFinished;
    ChunkStep(e, amp, chan, chunk.prev, d, chunk.h, chunk.junk);
    Write(e, |chan|, ChunkBlock(amp, chan, chunk.prev, d, chunk.h, chunk.junk))
  }

  lemma NextChunk<T>(e: Ext<T>, amp: Amp, chan: seq<T>, chunks: seq<Chunk<T>>, d: nat)
    requires Placed(e, amp, chan, d) && Splits(amp, chunks, amp.nrows - d) && chunks != []
    ensures d + chunks[0].h <= amp.nrows && |chunks[0].prev| == amp.Ncols() * chunks[0].h
    ensures Placed(Written(e, amp, chan, chunks[0], d), amp, chan, d + chunks[0].h)
    ensures Splits(amp, chunks[1..], amp.nrows - (d + chunks[0].h))
  {
    hide ChunkBlock, CanWrite, KeepsFinished, Write;
    ChunkStep(e, amp, chan, chunks[0].prev, d, chunks[0].h, chunks[0].junk);
  }

  /** The writer ends with every element read; rows that are finished stay as they are. */
  lemma {:induction false} RunEnds<T>(e: Ext<T>, amp: Amp, chan: seq<T>, chunks: seq<Chunk<T>>, d: nat)
    requires Placed(e, amp, chan, d) && Splits(amp, chunks, amp.nrows - d)
    ensures Placed(Run(e, amp, chan, chunks, d), amp, chan, amp.nrows)
    ensures KeepsFinished(Growing(e), Growing(Run(e, amp, chan, chunks, d)), amp, d)
    decreases |chunks|
  {
    hide ChunkBlock, Write, CanWrite, FinishedCells, KeepsFinished;
    if chunks == [] {
      KeptByNone(Growing(e), amp, d);
    } else {
      NextChunk(e, amp, chan, chunks, d);
      var (e', h) := (Written(e, amp, chan, chunks[0], d), chunks[0].h);
      ChunkStep(e, amp, chan, chunks[0].prev, d, h, chunks[0].junk);
      RunEnds(e', amp, chan, chunks[1..], d + h);
      KeptTwice(Growing(e), Growing(e'), Growing(Run(e', amp, chan, chunks[1..], d + h)), amp, d, h);
    }
  }

  lemma KeptByNone<T>(image: seq<T>, amp: Amp, d: nat)
    requires |image| == amp.Ncols() * amp.nrows
    ensures KeepsFinished(image, image, amp, d)
  {
    hide ImageCell;
    forall k, j | 0 <= k < amp.nrows && 0 <= j < amp.Ncols() && Finished(amp, d, k)
      ensures CellAgrees(image, image, ImageCell(amp, k, j))
    {
      ImageCellInside(amp, k, j);
    }
  }

  lemma KeptTwice<T>(image: seq<T>, image': seq<T>, image'': seq<T>, amp: Amp, d: nat, h: nat)
    requires KeepsFinished(image, image', amp, d) && KeepsFinished(image', image'', amp, d + h)
    ensures KeepsFinished(image, image'', amp, d)
  {
    hide ImageCell;
  }

  /**
   * Chunking does not show: as long as every chunk is turned exactly, whatever rows it holds, the extension
   * ends as the image of the whole amplifier, unscrambled and turned in one piece.
   */
  lemma {:induction false} ExtensionLands<T>(e: Ext<T>, amp: Amp, chan: seq<T>, chunks: seq<Chunk<T>>, d: nat)
    requires InExtension(e, amp, chan, d) && Splits(amp, chunks, amp.nrows - d) && AllTurn(amp, chunks)
    ensures Run(e, amp, chan, chunks, d).ext == WholeImage(amp, chan)
    decreases |chunks|
  {
    hide ChunkBlock, FinishedCells, Write, CanWrite, WholeImage, KeepsFinished;
    if chunks == [] {
      FullyFinished(Growing(e), amp, chan);
    } else {
      NextChunk(e, amp, chan, chunks, d);
      ChunkStep(e, amp, chan, chunks[0].prev, d, chunks[0].h, chunks[0].junk);
      ExtensionLands(Written(e, amp, chan, chunks[0], d), amp, chan, chunks[1..], d + chunks[0].h);
    }
  }

  /** In no chunk that is not turned exactly does the junk happen to be the pixel that belongs in its last cell. */
  ghost predicate JunkShows<T>(amp: Amp, chan: seq<T>, chunks: seq<Chunk<T>>, d: nat)
    requires Regular(amp) && |chan| == amp.Ncols() * amp.nrows
    requires d <= amp.nrows && Splits(amp, chunks, amp.nrows - d)
  {
    chunks == [] ||
    (&& (!Turns(amp, chunks[0].h) ==>
           && |chunks[0].junk| == amp.Ncols() * chunks[0].h > 0
           && 0 <= LastOf(amp, d, chunks[0].h) < |chan|
           && chunks[0].junk[|chunks[0].junk| - 1] != WholeImage(amp, chan)[LastOf(amp, d, chunks[0].h)])
     && JunkShows(amp, chan, chunks[1..], d + chunks[0].h))
  }

  /** Exactly when the extension ends as the whole image: every chunk is turned exactly. */
  lemma {:induction false} ExtensionLandsIff<T>(e: Ext<T>, amp: Amp, chan: seq<T>, chunks: seq<Chunk<T>>, d: nat)
    requires InExtension(e, amp, chan, d) && Splits(amp, chunks, amp.nrows - d) && JunkShows(amp, chan, chunks, d)
    ensures Run(e, amp, chan, chunks, d).ext == WholeImage(amp, chan) <==> AllTurn(amp, chunks)
    decreases |chunks|
  {
    hide ChunkBlock, FinishedCells, Write, CanWrite, WholeImage, KeepsFinished, LastOf;
    if AllTurn(amp, chunks) {
      ExtensionLands(e, amp, chan, chunks, d);
    } else {
      NextChunk(e, amp, chan, chunks, d);
      var (e', h) := (Written(e, amp, chan, chunks[0], d), chunks[0].h);
      ChunkStep(e, amp, chan, chunks[0].prev, d, h, chunks[0].junk);
      if Turns(amp, h) {
        ExtensionLandsIff(e', amp, chan, chunks[1..], d + h);
        RestTurns(amp, chunks);
      } else {
        ChunkKeepsJunk(amp, chan, chunks[0].prev, d, h, chunks[0].junk);
        RunEnds(e', amp, chan, chunks[1..], d + h);
        LastStays(Growing(e'), Growing(Run(e', amp, chan, chunks[1..], d + h)), amp, d, h);
      }
    }
  }

  lemma RestTurns<T>(amp: Amp, chunks: seq<Chunk<T>>)
    requires chunks != []
    ensures AllTurn(amp, chunks) <==> Turns(amp, chunks[0].h) && AllTurn(amp, chunks[1..])
  {
    hide Turns;
    assert forall i :: 0 < i < |chunks| ==> chunks[1..][i - 1] == chunks[i];
    assert forall i :: 0 <= i < |chunks| - 1 ==> chunks[1..][i] == chunks[i + 1];
  }

  lemma LastStays<T>(image: seq<T>, after: seq<T>, amp: Amp, d: nat, h: nat)
    requires amp.Ncols() > 0 && amp.rotate != 0 && 0 < h && d + h <= amp.nrows
    requires KeepsFinished(image, after, amp, d + h)
    ensures 0 <= LastOf(amp, d, h) < |after| && LastOf(amp, d, h) < |image|
    ensures after[LastOf(amp, d, h)] == image[LastOf(amp, d, h)]
  {
    hide ImageCell;
    assert Finished(amp, d + h, Offset(amp, d, h) + h - 1);
    assert CellAgrees(after, image, ImageCell(amp, Offset(amp, d, h) + h - 1, amp.Ncols() - 1));
  }

  /** A new writer is ready for any channel. */
  lemma NewExtension<T>(amp: Amp, chan: seq<T>, zero: T)
    requires Regular(amp) && |chan| == amp.Ncols() * amp.nrows
    ensures InExtension(Ext(amp, FirstColumn(amp), 0, seq(|chan|, _ => zero), seq(|chan|, _ => zero)), amp, chan, 0)
  {
  }

  /** Where pixel (y, x) as read ends in a finished extension: first the corner, then the turn. */
  function FinalCell(amp: Amp, y: int, x: int): int {
    var r, c := TurnRow(amp.kind, amp.nrows, y), TurnCol(amp.kind, amp.Ncols(), x);
    if amp.rotate == 0 then Cell(amp.Ncols(), r, c)
    else if amp.rotate == 90 then Cell(amp.nrows, c, amp.nrows - 1 - r)
    else Cell(amp.nrows, amp.Ncols() - 1 - c, r)
  }

  /** Geometry of a finished extension: the corner the amplifier is read from and its angle decide each pixel's cell. */
  lemma FinalPixel<T>(amp: Amp, chan: seq<T>, y: nat, x: nat)
    requires Regular(amp) && |chan| == amp.Ncols() * amp.nrows && y < amp.nrows && x < amp.Ncols()
    ensures 0 <= FinalCell(amp, y, x) < |chan| && 0 <= Cell(amp.Ncols(), y, x) < |chan|
    ensures WholeImage(amp, chan)[FinalCell(amp, y, x)] == chan[Cell(amp.Ncols(), y, x)]
  {
    hide Unscrambled, Turned, Cell;
    var r, c := TurnRow(amp.kind, amp.nrows, y), TurnCol(amp.kind, amp.Ncols(), x);
    UnscrambledGeometry(chan, chan, amp.kind, amp.Ncols(), amp.nrows, y, x);
    if amp.rotate != 0 {
      TurnedAt(Unscrambled(chan, chan, amp.kind, amp.Ncols()), amp.Ncols(), amp.nrows, amp.rotate, r, c);
    }
  }

  /** Pixels from..from + len of every one of n channels, as they lie in the raw stream. */
  function RawRun<T>(raw: seq<T>, n: nat, total: nat, from: nat, len: nat): (s: seq<T>)
    requires |raw| == total * n && from + len <= total
    ensures |s| == len * n
  {
    MulMonotone(0, from, n);
    MulMonotone(0, len, n);
    MulSplit(from, len, n);
    MulMonotone(from + len, total, n);
    raw[from * n..from * n + len * n]
  }

  lemma RunAt<T>(raw: seq<T>, n: nat, total: nat, from: nat, len: nat, q: nat)
    requires |raw| == total * n && from + len <= total && q < len * n
    ensures 0 <= from * n + q < |raw| && RawRun(raw, n, total, from, len)[q] == raw[from * n + q]
  {
    MulMonotone(0, from, n);
    MulSplit(from, len, n);
    MulMonotone(from + len, total, n);
  }

  /** A run of the raw stream is a run of every channel. */
  lemma ChannelOfRun<T>(raw: seq<T>, n: nat, i: nat, total: nat, from: nat, len: nat)
    requires i < n && |raw| == total * n && from + len <= total
    ensures Channel(RawRun(raw, n, total, from, len), n, i, len) == Channel(raw, n, i, total)[from..from + len]
  {
    hide Channel, RawRun;
    var run := RawRun(raw, n, total, from, len);
    forall k | 0 <= k < len
      ensures Channel(run, n, i, len)[k] == Channel(raw, n, i, total)[from..from + len][k]
    {
      ChannelAt(run, n, i, len, k);
      ChannelAt(raw, n, i, total, from + k);
      RunAt(raw, n, total, from, len, i + k * n);
      MulSplit(from, k, n);
    }
  }

  lemma RunIsRows<T>(amp: Amp, chan: seq<T>, d: nat, h: nat, from: nat, m: nat)
    requires |chan| == amp.Ncols() * amp.nrows && d + h <= amp.nrows
    requires from == amp.Ncols() * d && m == amp.Ncols() * h
    ensures from + m <= |chan| && Rows(amp, chan, d, h) == chan[from..from + m]
  {
    RowsInside(amp, d, h);
  }

  /** What GU_SHORT hands over for a raw chunk of h rows is the chunk block of the amplifier's channel. */
  lemma ChunkFromRaw<T>(raw: seq<T>, im: seq<T>, amps: seq<Amp>, physMap: seq<int>, i: nat, amp: Amp,
                        d: nat, h: nat, total: nat, from: nat, m: nat, at: nat, junk: seq<seq<T>>)
    requires U.WellMapped(amps, physMap) && i < |amps| && amp == amps[physMap[i]] && at == physMap[i] * m
    requires forall j, k :: 0 <= j < k < |physMap| ==> physMap[j] != physMap[k]
    requires Regular(amp) && d + h <= amp.nrows
    requires total == amp.Ncols() * amp.nrows && from == amp.Ncols() * d && m == amp.Ncols() * h && from + m <= total
    requires |raw| == total * |amps| && |amps| * m <= |im|
    ensures at + m <= |im|
    ensures U.ImageAfter(im, RawRun(raw, |amps|, total, from, m), amps, physMap, m, |amps|, junk)[at..at + m]
         == ChunkBlock(amp, Channel(raw, |amps|, i, total), im[at..at + m], d, h, U.JunkOf(junk, i))
  {
    hide U.Block, U.ImageAfter, Channel, RawRun, Rows, U.WellMapped;
    U.EveryBlockPlaced(im, RawRun(raw, |amps|, total, from, m), amps, physMap, m, |amps|, i, at, junk);
    ChannelOfRun(raw, |amps|, i, total, from, m);
    RunIsRows(amp, Channel(raw, |amps|, i, total), d, h, from, m);
  }
}
