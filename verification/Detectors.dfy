/** Blending amplifiers into detectors: GU_do_detextensions, and why it is a permutation of the raw pixels. */
module Detectors {
  import opened Grid
  import opened Amplifiers
  import opened Orientation
  import opened Subimage
  import opened Permutations
  import F = FrameAssembly
  import U = Unscramble

  /** A detector on the focal plane. Coordinates count from 1. */
  datatype Det = Det(xstart: int, ystart: int, ncols: nat, nrows: nat, detno: int)

  /** GU_getdet: the first detector with this number, or -1. */
  function DetIndex(dets: seq<Det>, detno: int, from: nat): (d: int)
    requires from <= |dets|
    ensures d == -1 || from <= d < |dets|
    ensures d >= 0 ==> dets[d].detno == detno && forall k :: from <= k < d ==> dets[k].detno != detno
    ensures d < 0 ==> forall k :: from <= k < |dets| ==> dets[k].detno != detno
    decreases |dets| - from
  {
    if from == |dets| then -1 else if dets[from].detno == detno then from else DetIndex(dets, detno, from + 1)
  }

  method GetDet(dets: seq<Det>, detno: int) returns (index: int)
    ensures index == DetIndex(dets, detno, 0)
  {
    index := 0;
    while index < |dets|
      invariant 0 <= index <= |dets|
      invariant DetIndex(dets, detno, 0) == DetIndex(dets, detno, index)
    {
      if dets[index].detno == detno {
        return;
      }
      index := index + 1;
    }
    index := -1;
  }

  /** An amplifier's block of `rows` rows lies inside its detector. */
  predicate InsideDet(a: Amp, d: Det, rows: nat) {
    && d.xstart <= a.xstart && a.xstart + a.Ncols() <= d.xstart + d.ncols
    && d.ystart <= a.ystart && a.ystart + rows <= d.ystart + d.nrows
    && d.ncols > 0
  }

  /** One amplifier: where it goes, and whether it can. */
  ghost predicate CanBlend(dets: seq<Det>, area: nat, a: Amp, rows: nat, from: nat, dataLen: nat, outLen: nat) {
    var d := DetIndex(dets, a.detno, 0);
    d >= 0 ==>
      && InsideDet(a, dets[d], rows) && dets[d].ncols * dets[d].nrows <= area
      && 0 <= d * area && d * area + area <= outLen
      && from + a.Ncols() * rows <= dataLen
  }

  function BlendOne<T>(out: seq<T>, dets: seq<Det>, area: nat, a: Amp, rows: nat, data: seq<T>, from: nat): (r: seq<T>)
    requires DetIndex(dets, a.detno, 0) >= 0 && CanBlend(dets, area, a, rows, from, |data|, |out|)
    ensures |r| == |out|
  {
    var d := DetIndex(dets, a.detno, 0);
    Splice(out, d * area, Paste(out[d * area..d * area + area], dets[d].ncols, data[from..from + a.Ncols() * rows],
                                a.xstart - dets[d].xstart, a.ystart - dets[d].ystart, a.Ncols(), rows))
  }

  /** The first amplifier whose detector is not in the table, or their number. */
  function Missing(dets: seq<Det>, amps: seq<Amp>, from: nat): (i: nat)
    requires from <= |amps|
    ensures from <= i <= |amps|
    ensures i < |amps| ==> DetIndex(dets, amps[i].detno, 0) < 0
    ensures forall k :: from <= k < i ==> DetIndex(dets, amps[k].detno, 0) >= 0
    decreases |amps| - from
  {
    if from == |amps| || DetIndex(dets, amps[from].detno, 0) < 0 then from else Missing(dets, amps, from + 1)
  }

  ghost predicate CanBlendAll(dets: seq<Det>, area: nat, amps: seq<Amp>, rows: nat, dataptr: seq<nat>, dataLen: nat,
                              outLen: nat) {
    && |dataptr| == |amps|
    && forall i :: 0 <= i < |amps| ==> CanBlend(dets, area, amps[i], rows, dataptr[i], dataLen, outLen)
  }

  /** The detector buffer after the first n amplifiers, all of whose detectors are known. */
  function Blended<T>(out: seq<T>, dets: seq<Det>, area: nat, amps: seq<Amp>, rows: nat, data: seq<T>,
                      dataptr: seq<nat>, n: nat): (r: seq<T>)
    requires n <= Missing(dets, amps, 0) && CanBlendAll(dets, area, amps, rows, dataptr, |data|, |out|)
    ensures |r| == |out|
  {
    if n == 0 then out
    else BlendOne(Blended(out, dets, area, amps, rows, data, dataptr, n - 1), dets, area, amps[n - 1], rows, data,
                  dataptr[n - 1])
  }

  /**
   * GU_do_detextensions for nelems pixels in all; every detector gets an equal share of the buffer. ok is false
   * when an amplifier names a detector that is not there.
   */
  method DoDetExtensions<T>(dets: seq<Det>, nelems: nat, amps: seq<Amp>, rows: nat,
                            data: array<T>, dataptr: seq<nat>, out: array<T>) returns (ok: bool)
    requires data != out && |dets| > 0
    requires CanBlendAll(dets, U.PerBlock(nelems, |dets|), amps, rows, dataptr, data.Length, out.Length)
    modifies out
    ensures ok <==> Missing(dets, amps, 0) == |amps|
    ensures out[..] == Blended(old(out[..]), dets, U.PerBlock(nelems, |dets|), amps, rows, data[..], dataptr,
                               Missing(dets, amps, 0))
  {
    hide CanBlend, BlendOne, DetIndex, U.PerBlock;
    var area := U.PerBlock(nelems, |dets|);
    ghost var was, pixels := out[..], data[..];
    var i := 0;
    while i < |amps|
      invariant 0 <= i <= Missing(dets, amps, 0)
      invariant out[..] == Blended(was, dets, area, amps, rows, pixels, dataptr, i)
    {
      assert CanBlend(dets, area, amps[i], rows, dataptr[i], data.Length, out.Length);
      var known := BlendAmp(dets, area, amps[i], rows, data, dataptr[i], out);
      if !known {
        return false;
      }
      i := i + 1;
    }
    ok := true;
  }

  /** One pass of the loop over amplifiers. */
  method BlendAmp<T>(dets: seq<Det>, area: nat, a: Amp, rows: nat, data: array<T>, from: nat, out: array<T>)
      returns (known: bool)
    requires data != out && CanBlend(dets, area, a, rows, from, data.Length, out.Length)
    modifies out
    ensures known <==> DetIndex(dets, a.detno, 0) >= 0
    ensures known ==> out[..] == BlendOne(old(out[..]), dets, area, a, rows, data[..], from)
    ensures !known ==> out[..] == old(out[..])
  {
    hide Paste, Splice, DetIndex;
    var d := GetDet(dets, a.detno);
    known := d >= 0;
    if known {
      AddBlock(dets[d], d * area, area, a, rows, data, from, out);
    }
  }

  method AddBlock<T>(det: Det, base: nat, area: nat, a: Amp, rows: nat, data: array<T>, from: nat, out: array<T>)
    requires data != out && InsideDet(a, det, rows) && det.ncols * det.nrows <= area
    requires base + area <= out.Length && from + a.Ncols() * rows <= data.Length
    modifies out
    ensures out[..] == Splice(old(out[..]), base,
                              Paste(old(out[..])[base..base + area], det.ncols, data[..][from..from + a.Ncols() * rows],
                                    a.xstart - det.xstart, a.ystart - det.ystart, a.Ncols(), rows))
  {
    hide Paste, Splice;
    MulMonotone(a.ystart - det.ystart + rows, det.nrows, det.ncols);
    assert det.ncols * det.nrows == det.nrows * det.ncols;
    assert data[..][from..from + a.Ncols() * rows] == data[from..from + a.Ncols() * rows];
    assert out[..][base..base + area] == out[base..base + area];
    AddSubimage(out, base, area, data, from, a.xstart - det.xstart + 1, a.ystart - det.ystart + 1, a.Ncols(), rows,
                det.ncols);
  }

  // ---- a full frame ----

  predicate CoversPixel(a: Amp, y: int, x: int) {
    Covers(a.xstart, a.ystart, a.Ncols(), a.nrows, y, x)
  }

  function DetOf(dets: seq<Det>, a: Amp): int {
    DetIndex(dets, a.detno, 0)
  }

  /** The amplifiers of each detector tile it exactly, and all detectors have the same area. */
  ghost predicate Tiled(cam: F.Camera, dets: seq<Det>, area: nat) {
    && cam.Wired()
    && (forall d :: 0 <= d < |dets| ==> dets[d].ncols > 0 && dets[d].ncols * dets[d].nrows == area)
    && (forall a :: 0 <= a < cam.N() ==>
          && DetOf(dets, cam.amps[a]) >= 0
          && InsideDet(cam.amps[a], dets[DetOf(dets, cam.amps[a])], cam.nrows))
    && (forall a, b, y, x :: 0 <= a < b < cam.N() && DetOf(dets, cam.amps[a]) == DetOf(dets, cam.amps[b]) ==>
          !(CoversPixel(cam.amps[a], y, x) && CoversPixel(cam.amps[b], y, x)))
    && (forall d, y, x :: 0 <= d < |dets| && Covers(dets[d].xstart, dets[d].ystart, dets[d].ncols, dets[d].nrows, y,
                                                    x) ==>
          Belongs(cam, dets, d, y, x))
  }

  /** Some amplifier of detector d shows this pixel. */
  ghost predicate Belongs(cam: F.Camera, dets: seq<Det>, d: int, y: int, x: int) {
    exists a :: 0 <= a < cam.N() && DetOf(dets, cam.amps[a]) == d && CoversPixel(cam.amps[a], y, x)
  }

  /** The buffer cell of row y, column x of detector d. */
  function DetCell(dets: seq<Det>, area: nat, d: int, y: int, x: int): int
    requires 0 <= d < |dets|
  {
    d * area + Cell(dets[d].ncols, y - dets[d].ystart, x - dets[d].xstart)
  }

  /** Where pixel (y, x) of amplifier a's read channel ends up. */
  function PixelCell(cam: F.Camera, dets: seq<Det>, area: nat, a: nat, y: int, x: int): int
    requires Tiled(cam, dets, area) && a < cam.N()
  {
    var amp := cam.amps[a];
    DetCell(dets, area, DetOf(dets, amp), amp.ystart + TurnRow(amp.kind, cam.nrows, y),
            amp.xstart + TurnCol(amp.kind, cam.ncols, x))
  }

  lemma DetCellInside(dets: seq<Det>, area: nat, d: int, y: int, x: int)
    requires 0 <= d < |dets| && dets[d].ncols * dets[d].nrows == area
    requires Covers(dets[d].xstart, dets[d].ystart, dets[d].ncols, dets[d].nrows, y, x)
    ensures 0 <= d * area <= DetCell(dets, area, d, y, x) < d * area + area <= |dets| * area
  {
    CellInside(dets[d].ncols, dets[d].nrows, y - dets[d].ystart, x - dets[d].xstart);
    U.BlockInside(|dets|, area, d);
  }

  lemma DetCellInjective(dets: seq<Det>, area: nat, d: int, y: int, x: int, d': int, y': int, x': int)
    requires 0 <= d < |dets| && dets[d].ncols * dets[d].nrows == area
    requires 0 <= d' < |dets| && dets[d'].ncols * dets[d'].nrows == area
    requires Covers(dets[d].xstart, dets[d].ystart, dets[d].ncols, dets[d].nrows, y, x)
    requires Covers(dets[d'].xstart, dets[d'].ystart, dets[d'].ncols, dets[d'].nrows, y', x')
    requires DetCell(dets, area, d, y, x) == DetCell(dets, area, d', y', x')
    ensures d == d' && y == y' && x == x'
  {
    DetCellInside(dets, area, d, y, x);
    DetCellInside(dets, area, d', y', x');
    if d != d' {
      U.BlocksApart(area, d, d');
    } else {
      CellInjective(dets[d].ncols, y - dets[d].ystart, x - dets[d].xstart, y' - dets[d].ystart, x' - dets[d].xstart);
    }
  }

  lemma PixelInDet(cam: F.Camera, dets: seq<Det>, area: nat, a: nat, y: int, x: int)
    requires Tiled(cam, dets, area) && a < cam.N() && CoversPixel(cam.amps[a], y, x)
    ensures var d := DetOf(dets, cam.amps[a]);
            Covers(dets[d].xstart, dets[d].ystart, dets[d].ncols, dets[d].nrows, y, x)
  {
    assert cam.Plain(cam.amps[a]);
  }

  /** Only one amplifier of a detector shows a pixel. */
  lemma ShowsOnce(cam: F.Camera, dets: seq<Det>, area: nat, a: nat, a': nat, y: int, x: int)
    requires Tiled(cam, dets, area) && a < cam.N() && a' < cam.N()
    requires DetOf(dets, cam.amps[a]) == DetOf(dets, cam.amps[a'])
    requires CoversPixel(cam.amps[a], y, x) && CoversPixel(cam.amps[a'], y, x)
    ensures a == a'
  {
  }

  /** Different raw pixels end in different cells. */
  lemma PixelCellInjective(cam: F.Camera, dets: seq<Det>, area: nat, a: nat, y: nat, x: nat, a': nat, y': nat, x': nat)
    requires Tiled(cam, dets, area) && a < cam.N() && a' < cam.N()
    requires y < cam.nrows && x < cam.ncols && y' < cam.nrows && x' < cam.ncols
    requires PixelCell(cam, dets, area, a, y, x) == PixelCell(cam, dets, area, a', y', x')
    ensures a == a' && y == y' && x == x'
  {
    var (amp, amp') := (cam.amps[a], cam.amps[a']);
    assert cam.Plain(amp) && cam.Plain(amp');
    var (Y, X) := (amp.ystart + TurnRow(amp.kind, cam.nrows, y), amp.xstart + TurnCol(amp.kind, cam.ncols, x));
    var (Y', X') := (amp'.ystart + TurnRow(amp'.kind, cam.nrows, y'), amp'.xstart + TurnCol(amp'.kind, cam.ncols, x'));
    PixelInDet(cam, dets, area, a, Y, X);
    PixelInDet(cam, dets, area, a', Y', X');
    DetCellInjective(dets, area, DetOf(dets, amp), Y, X, DetOf(dets, amp'), Y', X');
    ShowsOnce(cam, dets, area, a, a', Y, X);
  }

  /** Every cell of the detector buffer is written by some raw pixel. */
  lemma EveryCellIsWritten(cam: F.Camera, dets: seq<Det>, area: nat, p: nat) returns (a: nat, y: nat, x: nat)
    requires Tiled(cam, dets, area) && p < |dets| * area
    ensures a < cam.N() && y < cam.nrows && x < cam.ncols && PixelCell(cam, dets, area, a, y, x) == p
  {
    hide Cell, TurnRow, TurnCol, DetIndex, Tiled;
    assert |dets| * area == area * |dets|;
    CellJoin(area, |dets|, p);
    var d, q := p / area, p % area;
    assert dets[d].ncols > 0 && dets[d].ncols * dets[d].nrows == area by { DetArea(cam, dets, area, d); }
    CellJoin(dets[d].ncols, dets[d].nrows, q);
    var Y, X := dets[d].ystart + q / dets[d].ncols, dets[d].xstart + q % dets[d].ncols;
    a := AmpAt(cam, dets, area, d, Y, X);
    var amp := cam.amps[a];
    TurnTwice(amp.kind, cam.nrows, cam.ncols, Y - amp.ystart, X - amp.xstart);
    y, x := TurnRow(amp.kind, cam.nrows, Y - amp.ystart), TurnCol(amp.kind, cam.ncols, X - amp.xstart);
    CellIs(area, d, q);
  }

  lemma DetArea(cam: F.Camera, dets: seq<Det>, area: nat, d: nat)
    requires Tiled(cam, dets, area) && d < |dets|
    ensures dets[d].ncols > 0 && dets[d].ncols * dets[d].nrows == area
  {
  }

  /** The amplifier that shows row y, column x of detector d. */
  lemma AmpAt(cam: F.Camera, dets: seq<Det>, area: nat, d: nat, y: int, x: int) returns (a: nat)
    requires Tiled(cam, dets, area) && d < |dets|
    requires Covers(dets[d].xstart, dets[d].ystart, dets[d].ncols, dets[d].nrows, y, x)
    ensures a < cam.N() && DetOf(dets, cam.amps[a]) == d
    ensures 0 <= y - cam.amps[a].ystart < cam.nrows && 0 <= x - cam.amps[a].xstart < cam.ncols
  {
    hide DetIndex;
    assert Belongs(cam, dets, d, y, x);
    a :| 0 <= a < cam.N() && DetOf(dets, cam.amps[a]) == d && CoversPixel(cam.amps[a], y, x);
    assert cam.Plain(cam.amps[a]);
  }

  lemma NoneMissing(cam: F.Camera, dets: seq<Det>, area: nat)
    requires Tiled(cam, dets, area)
    ensures Missing(dets, cam.amps, 0) == cam.N()
  {
  }

  lemma CanBlendAmp(cam: F.Camera, dets: seq<Det>, area: nat, i: nat)
    requires Tiled(cam, dets, area) && i < cam.N()
    ensures CanBlend(dets, area, cam.amps[i], cam.nrows, F.Starts(cam, cam.nrows)[i], F.FramePixels(cam), |dets| * area)
  {
    var amp, m := cam.amps[i], cam.ncols * cam.nrows;
    assert cam.Plain(amp);
    var d := DetOf(dets, amp);
    assert 0 <= d && InsideDet(amp, dets[d], cam.nrows) && dets[d].ncols * dets[d].nrows == area;
    hide InsideDet, Tiled, DetIndex;
    U.BlockInside(|dets|, area, d);
    U.BlockInside(cam.N(), m, i);
    assert m * cam.N() == cam.N() * m;
  }

  lemma FullFrameBlends(cam: F.Camera, dets: seq<Det>, area: nat)
    requires Tiled(cam, dets, area)
    ensures Missing(dets, cam.amps, 0) == cam.N()
    ensures CanBlendAll(dets, area, cam.amps, cam.nrows, F.Starts(cam, cam.nrows), F.FramePixels(cam), |dets| * area)
  {
    hide CanBlend, Tiled, Missing, F.Starts, F.FramePixels;
    NoneMissing(cam, dets, area);
    EveryAmpBlends(cam, dets, area, F.Starts(cam, cam.nrows), F.FramePixels(cam), |dets| * area);
  }

  lemma EveryAmpBlends(cam: F.Camera, dets: seq<Det>, area: nat, starts: seq<nat>, len: nat, size: nat)
    requires Tiled(cam, dets, area)
    requires starts == F.Starts(cam, cam.nrows) && len == F.FramePixels(cam) && size == |dets| * area
    ensures CanBlendAll(dets, area, cam.amps, cam.nrows, starts, len, size)
  {
    hide CanBlend, Tiled, F.Starts, F.FramePixels;
    forall i | 0 <= i < cam.N()
      ensures CanBlend(dets, area, cam.amps[i], cam.nrows, starts[i], len, size)
    {
      CanBlendAmp(cam, dets, area, i);
    }
  }

  /** One cell of a buffer after a block of it has been pasted over. */
  lemma PastedCell<T>(out: seq<T>, base: nat, area: nat, pasted: seq<T>, p: nat)
    requires base + area <= |out| && |pasted| == area && p < |out|
    ensures Splice(out, base, pasted)[p] == if base <= p < base + area then pasted[p - base] else out[p]
  {
  }

  /** What blending one amplifier does to row y, column x of detector d. */
  lemma BlendOneCell<T>(out: seq<T>, dets: seq<Det>, area: nat, a: Amp, rows: nat, data: seq<T>, from: nat, d: int,
                        y: int, x: int)
    requires DetOf(dets, a) >= 0 && CanBlend(dets, area, a, rows, from, |data|, |out|)
    requires 0 <= d < |dets| && |out| == |dets| * area
    requires dets[d].ncols * dets[d].nrows == area && dets[DetOf(dets, a)].ncols * dets[DetOf(dets, a)].nrows == area
    requires Covers(dets[d].xstart, dets[d].ystart, dets[d].ncols, dets[d].nrows, y, x)
    ensures 0 <= DetCell(dets, area, d, y, x) < |out|
    ensures d == DetOf(dets, a) && Covers(a.xstart, a.ystart, a.Ncols(), rows, y, x) ==>
              && 0 <= from + Cell(a.Ncols(), y - a.ystart, x - a.xstart) < |data|
              && BlendOne(out, dets, area, a, rows, data, from)[DetCell(dets, area, d, y, x)]
              == data[from + Cell(a.Ncols(), y - a.ystart, x - a.xstart)]
    ensures !(d == DetOf(dets, a) && Covers(a.xstart, a.ystart, a.Ncols(), rows, y, x)) ==>
              BlendOne(out, dets, area, a, rows, data, from)[DetCell(dets, area, d, y, x)]
                  == out[DetCell(dets, area, d, y, x)]
  {
    hide Paste, Splice, DetIndex;
    DetCellInside(dets, area, d, y, x);
    var d' := DetOf(dets, a);
    var base := d' * area;
    var block, sub := out[base..base + area], data[from..from + a.Ncols() * rows];
    var pasted := Paste(block, dets[d'].ncols, sub, a.xstart - dets[d'].xstart, a.ystart - dets[d'].ystart,
                        a.Ncols(), rows);
    PastedCell(out, base, area, pasted, DetCell(dets, area, d, y, x));
    if d != d' {
      U.BlocksApart(area, d, d');
    } else {
      hide CanBlend;
      PasteAt(block, dets[d].ncols, sub, a.xstart - dets[d].xstart, a.ystart - dets[d].ystart, a.Ncols(), rows,
              y - dets[d].ystart, x - dets[d].xstart);
    }
  }

  lemma WiredIfTiled(cam: F.Camera, dets: seq<Det>, area: nat)
    requires Tiled(cam, dets, area)
    ensures cam.Wired()
  {
  }

  /** The cell of `data` that holds pixel (y, x) of amplifier a's channel. */
  function DataCell(cam: F.Camera, a: nat, y: int, x: int): int
    requires a < cam.N()
  {
    var kind := cam.amps[a].kind;
    F.Starts(cam, cam.nrows)[a] + Cell(cam.ncols, TurnRow(kind, cam.nrows, y), TurnCol(kind, cam.ncols, x))
  }

  /** Amplifier a's pixels come from its own block, and no other amplifier touches them. */
  lemma BlendStep<T>(cam: F.Camera, dets: seq<Det>, area: nat, data: seq<T>, before: seq<T>, a: nat, y: nat, x: nat,
                     b: nat)
    requires Tiled(cam, dets, area) && |data| == F.FramePixels(cam) && |before| == |dets| * area
    requires a < cam.N() && b < cam.N() && y < cam.nrows && x < cam.ncols
    ensures CanBlend(dets, area, cam.amps[b], cam.nrows, F.Starts(cam, cam.nrows)[b], F.FramePixels(cam), |before|)
    ensures DetIndex(dets, cam.amps[b].detno, 0) >= 0
    ensures 0 <= PixelCell(cam, dets, area, a, y, x) < |before|
    ensures var after := BlendOne(before, dets, area, cam.amps[b], cam.nrows, data, F.Starts(cam, cam.nrows)[b]);
            var p := PixelCell(cam, dets, area, a, y, x);
            if a == b then 0 <= DataCell(cam, a, y, x) < |data| && after[p] == data[DataCell(cam, a, y, x)]
            else after[p] == before[p]
  {
    hide BlendOne, CanBlend, CanBlendAll, DetIndex, F.FramePixels, F.Starts, Cell, Tiled, InsideDet;
    CanBlendAmp(cam, dets, area, b);
    PixelOf(cam, dets, area, a, y, x, b);
    var amp, other := cam.amps[a], cam.amps[b];
    var Y, X := amp.ystart + TurnRow(amp.kind, cam.nrows, y), amp.xstart + TurnCol(amp.kind, cam.ncols, x);
    BlendOneCell(before, dets, area, other, cam.nrows, data, F.Starts(cam, cam.nrows)[b], DetOf(dets, amp), Y, X);
  }

  lemma PixelOf(cam: F.Camera, dets: seq<Det>, area: nat, a: nat, y: nat, x: nat, b: nat)
    requires Tiled(cam, dets, area) && a < cam.N() && b < cam.N() && y < cam.nrows && x < cam.ncols
    ensures var (amp, other) := (cam.amps[a], cam.amps[b]);
            var (d, d') := (DetOf(dets, amp), DetOf(dets, other));
            var (Y, X) := (amp.ystart + TurnRow(amp.kind, cam.nrows, y), amp.xstart + TurnCol(amp.kind, cam.ncols, x));
            && d >= 0 && dets[d].ncols * dets[d].nrows == area
            && d' >= 0 && dets[d'].ncols * dets[d'].nrows == area
            && other.Ncols() == cam.ncols && other.nrows == cam.nrows
            && Covers(dets[d].xstart, dets[d].ystart, dets[d].ncols, dets[d].nrows, Y, X)
            && (d == d' && Covers(other.xstart, other.ystart, other.Ncols(), cam.nrows, Y, X) <==> a == b)
            && TurnRow(amp.kind, cam.nrows, y) == Y - amp.ystart && TurnCol(amp.kind, cam.ncols, x) == X - amp.xstart
  {
    var amp, other := cam.amps[a], cam.amps[b];
    assert cam.Plain(amp) && cam.Plain(other);
    var Y, X := amp.ystart + TurnRow(amp.kind, cam.nrows, y), amp.xstart + TurnCol(amp.kind, cam.ncols, x);
    PixelInDet(cam, dets, area, a, Y, X);
    PixelInDet(cam, dets, area, b, other.ystart, other.xstart);
    if CoversPixel(other, Y, X) && DetOf(dets, amp) == DetOf(dets, other) {
      ShowsOnce(cam, dets, area, a, b, Y, X);
    }
  }

  lemma OwnPixel<T>(cam: F.Camera, dets: seq<Det>, area: nat, raw: seq<T>, im: seq<T>, a: nat, y: nat, x: nat)
    requires cam.Wired() && |raw| == |im| == F.FramePixels(cam)
    requires a < cam.N() && y < cam.nrows && x < cam.ncols
    ensures 0 <= F.RawCell(cam, cam.chan[a], y, x) < |raw|
    ensures 0 <= DataCell(cam, a, y, x) < |im|
    ensures F.Data(cam, im, F.ChunkOf(cam, raw, 0, cam.nrows), cam.nrows)[DataCell(cam, a, y, x)]
         == raw[F.RawCell(cam, cam.chan[a], y, x)]
  {
    hide F.Data, F.FramePixels, F.ChunkOf, F.RawCell, Cell, U.Start, TurnRow, TurnCol;
    var kind := cam.amps[a].kind;
    TurnTwice(kind, cam.nrows, cam.ncols, y, x);
    F.DataPixel(cam, raw, im, 0, cam.nrows, a, TurnRow(kind, cam.nrows, y), TurnCol(kind, cam.ncols, x));
  }

  lemma TurnTwice(kind: Bits, nrows: nat, ncols: nat, y: nat, x: nat)
    requires y < nrows && x < ncols
    ensures 0 <= TurnRow(kind, nrows, y) < nrows && TurnRow(kind, nrows, TurnRow(kind, nrows, y)) == y
    ensures 0 <= TurnCol(kind, ncols, x) < ncols && TurnCol(kind, ncols, TurnCol(kind, ncols, x)) == x
  {
  }

  /** A detector cell after the first n amplifiers have been blended: a pixel of its own amplifier's block. */
  lemma {:induction false} BlendedCell<T>(cam: F.Camera, dets: seq<Det>, area: nat, data: seq<T>, out: seq<T>,
                                         a: nat, y: nat, x: nat, n: nat)
    requires Tiled(cam, dets, area) && |data| == F.FramePixels(cam) && |out| == |dets| * area
    requires a < n <= cam.N() && y < cam.nrows && x < cam.ncols
    ensures n <= Missing(dets, cam.amps, 0)
    ensures CanBlendAll(dets, area, cam.amps, cam.nrows, F.Starts(cam, cam.nrows), F.FramePixels(cam), |out|)
    ensures 0 <= PixelCell(cam, dets, area, a, y, x) < |out|
    ensures 0 <= DataCell(cam, a, y, x) < |data|
    ensures Blended(out, dets, area, cam.amps, cam.nrows, data, F.Starts(cam, cam.nrows),
                    n)[PixelCell(cam, dets, area, a, y, x)]
         == data[DataCell(cam, a, y, x)]
    decreases n
  {
    hide F.FramePixels, F.Starts, BlendOne, Tiled, CanBlend, Missing, PixelCell, DataCell, DetIndex;
    FullFrameBlends(cam, dets, area);
    var before := Blended(out, dets, area, cam.amps, cam.nrows, data, F.Starts(cam, cam.nrows), n - 1);
    BlendStep(cam, dets, area, data, before, a, y, x, n - 1);
    if a < n - 1 {
      BlendedCell(cam, dets, area, data, out, a, y, x, n - 1);
    }
  }

  /**
   * A whole frame, unscrambled and blended: raw pixel (y, x) of amplifier a's read channel ends in its cell
   * of the detector buffer, whatever the two buffers held. With PixelCellInjective, EveryCellIsWritten and
   * EveryRawPixel the detector buffer is a permutation of the raw frame.
   */
  lemma BlendedPixel<T>(cam: F.Camera, dets: seq<Det>, area: nat, raw: seq<T>, im: seq<T>, out: seq<T>, a: nat,
                        y: nat, x: nat)
    requires Tiled(cam, dets, area) && |raw| == |im| == F.FramePixels(cam) && |out| == |dets| * area
    requires a < cam.N() && y < cam.nrows && x < cam.ncols
    ensures cam.Wired() && Missing(dets, cam.amps, 0) == cam.N()
    ensures CanBlendAll(dets, area, cam.amps, cam.nrows, F.Starts(cam, cam.nrows), F.FramePixels(cam), |out|)
    ensures 0 <= PixelCell(cam, dets, area, a, y, x) < |out|
    ensures 0 <= F.RawCell(cam, cam.chan[a], y, x) < |raw|
    ensures Blended(out, dets, area, cam.amps, cam.nrows, F.Data(cam, im, F.ChunkOf(cam, raw, 0, cam.nrows), cam.nrows),
                    F.Starts(cam, cam.nrows), cam.N())[PixelCell(cam, dets, area, a, y, x)]
         == raw[F.RawCell(cam, cam.chan[a], y, x)]
  {
    WiredIfTiled(cam, dets, area);
    NoneMissing(cam, dets, area);
    hide F.Data, F.FramePixels, F.ChunkOf, F.Starts, Blended, Tiled, CanBlendAll, Missing, PixelCell, DataCell,
        F.RawCell;
    BlendedCell(cam, dets, area, F.Data(cam, im, F.ChunkOf(cam, raw, 0, cam.nrows), cam.nrows), out, a, y, x, cam.N());
    OwnPixel(cam, dets, area, raw, im, a, y, x);
  }

  /**
   * The cells in numbers: detector d has the cells from d * area on, row after row from its first one, and a pixel
   * lies as far from its detector's first row and column as it lies on the focal plane.
   */
  lemma PixelCellInNumbers(cam: F.Camera, dets: seq<Det>, area: nat, a: nat, d: nat, y: nat, x: nat)
    requires Tiled(cam, dets, area) && a < cam.N() && y < cam.nrows && x < cam.ncols
    requires d < |dets| && dets[d].detno == cam.amps[a].detno
    requires forall k :: 0 <= k < d ==> dets[k].detno != cam.amps[a].detno
    ensures var amp := cam.amps[a];
            var row := if amp.kind in {LL, LR} then amp.ystart + y else amp.ystart + cam.nrows - 1 - y;
            var col := if amp.kind in {LL, UL} then amp.xstart + x else amp.xstart + cam.ncols - 1 - x;
            PixelCell(cam, dets, area, a, y, x)
            == d * area + (row - dets[d].ystart) * dets[d].ncols + (col - dets[d].xstart)
    ensures F.RawCell(cam, cam.chan[a], y, x) == cam.chan[a] + (y * cam.ncols + x) * cam.N()
  {
    WiredIfTiled(cam, dets, area);
    hide Tiled, DetIndex;
    assert cam.Plain(cam.amps[a]);
    assert DetOf(dets, cam.amps[a]) == d;
  }

  /** Every raw pixel is a pixel of one read channel. */
  lemma EveryRawPixel(cam: F.Camera, k: nat) returns (a: nat, y: nat, x: nat)
    requires cam.Wired() && k < F.FramePixels(cam)
    ensures a < cam.N() && y < cam.nrows && x < cam.ncols && F.RawCell(cam, cam.chan[a], y, x) == k
  {
    var (a', y', x') := RawPixel(cam, k);
    a, y, x := a', y', x';
  }

  /** The amplifier, row and column of the k-th raw pixel. */
  function RawPixel(cam: F.Camera, k: nat): (r: (nat, nat, nat))
    requires cam.Wired() && k < F.FramePixels(cam)
    ensures r.0 < cam.N() && r.1 < cam.nrows && r.2 < cam.ncols
    ensures F.RawCell(cam, cam.chan[r.0], r.1, r.2) == k
  {
    CellJoin(cam.N(), cam.ncols * cam.nrows, k);
    var i, q := k % cam.N(), k / cam.N();
    CellJoin(cam.ncols, cam.nrows, q);
    (cam.physMap[i], q / cam.ncols, q % cam.ncols)
  }

  lemma RawCellInjective(cam: F.Camera, a: nat, y: nat, x: nat, a': nat, y': nat, x': nat)
    requires cam.Wired() && a < cam.N() && a' < cam.N()
    requires y < cam.nrows && x < cam.ncols && y' < cam.nrows && x' < cam.ncols
    requires F.RawCell(cam, cam.chan[a], y, x) == F.RawCell(cam, cam.chan[a'], y', x')
    ensures a == a' && y == y' && x == x'
  {
    var q, q' := Cell(cam.ncols, y, x), Cell(cam.ncols, y', x');
    CellInjective(cam.N(), q, cam.chan[a], q', cam.chan[a']);
    CellInjective(cam.ncols, y, x, y', x');
    assert cam.physMap[cam.chan[a]] == a && cam.physMap[cam.chan[a']] == a';
  }

  // ---- the permutation ----

  /** The detector cell of the k-th raw pixel. */
  ghost function CellOfRaw(cam: F.Camera, dets: seq<Det>, area: nat, k: nat): (p: nat)
    requires Tiled(cam, dets, area) && k < F.FramePixels(cam)
    ensures p < |dets| * area
  {
    WiredIfTiled(cam, dets, area);
    var (a, y, x) := RawPixel(cam, k);
    PixelCellInside(cam, dets, area, a, y, x);
    PixelCell(cam, dets, area, a, y, x)
  }

  lemma PixelCellInside(cam: F.Camera, dets: seq<Det>, area: nat, a: nat, y: nat, x: nat)
    requires Tiled(cam, dets, area) && a < cam.N() && y < cam.nrows && x < cam.ncols
    ensures 0 <= PixelCell(cam, dets, area, a, y, x) < |dets| * area
  {
    hide Tiled, DetIndex, Cell, TurnRow, TurnCol;
    PixelOf(cam, dets, area, a, y, x, a);
    var amp := cam.amps[a];
    DetCellInside(dets, area, DetOf(dets, amp), amp.ystart + TurnRow(amp.kind, cam.nrows, y),
                  amp.xstart + TurnCol(amp.kind, cam.ncols, x));
  }

  /** The detector cells of all raw pixels, in raw order. */
  ghost function Cells(cam: F.Camera, dets: seq<Det>, area: nat): (at: seq<nat>)
    requires Tiled(cam, dets, area)
    ensures |at| == F.FramePixels(cam)
    ensures forall k :: 0 <= k < |at| ==> at[k] == CellOfRaw(cam, dets, area, k)
  {
    seq(F.FramePixels(cam), k requires 0 <= k < F.FramePixels(cam) => CellOfRaw(cam, dets, area, k))
  }

  lemma CellsPermute(cam: F.Camera, dets: seq<Det>, area: nat)
    requires Tiled(cam, dets, area)
    ensures Permutes(Cells(cam, dets, area), |dets| * area)
  {
    hide Tiled, PixelCell, F.FramePixels, F.RawCell, RawPixel;
    WiredIfTiled(cam, dets, area);
    var at := Cells(cam, dets, area);
    hide Cells;
    forall k, k' | 0 <= k < k' < |at|
      ensures at[k] != at[k']
    {
      if at[k] == at[k'] {
        var ((a, y, x), (a', y', x')) := (RawPixel(cam, k), RawPixel(cam, k'));
        PixelCellInjective(cam, dets, area, a, y, x, a', y', x');
      }
    }
    forall p | 0 <= p < |dets| * area
      ensures p in at
    {
      var a, y, x := EveryCellIsWritten(cam, dets, area, p);
      F.RawCellInside(cam, cam.chan[a], y, x);
      var k: nat := F.RawCell(cam, cam.chan[a], y, x);
      var (a', y', x') := RawPixel(cam, k);
      RawCellInjective(cam, a, y, x, a', y', x');
      assert at[k] == p;
    }
  }

  /**
   * A full frame, unscrambled and blended, is a permutation of the raw frame: the detectors have room for
   * exactly its pixels, so that each has the share of the buffer that the source computes, and the detector
   * buffer holds every raw pixel once, whatever it and the image buffer held.
   */
  lemma BlendingPermutes<T>(cam: F.Camera, dets: seq<Det>, area: nat, raw: seq<T>, im: seq<T>, out: seq<T>)
    requires Tiled(cam, dets, area) && |raw| == |im| == F.FramePixels(cam) && |out| == |dets| * area
    ensures cam.Wired() && Missing(dets, cam.amps, 0) == cam.N()
    ensures CanBlendAll(dets, area, cam.amps, cam.nrows, F.Starts(cam, cam.nrows), F.FramePixels(cam), |out|)
    ensures F.FramePixels(cam) == |dets| * area && |dets| > 0 && U.PerBlock(F.FramePixels(cam), |dets|) == area
    ensures var data := F.Data(cam, im, F.ChunkOf(cam, raw, 0, cam.nrows), cam.nrows);
            multiset(Blended(out, dets, area, cam.amps, cam.nrows, data, F.Starts(cam, cam.nrows), cam.N()))
            == multiset(raw)
  {
    hide Tiled, Blended, Missing, CanBlendAll, Cells, CellOfRaw, F.Data, F.ChunkOf, F.Starts, F.FramePixels, U.PerBlock;
    WiredIfTiled(cam, dets, area);
    FullFrameBlends(cam, dets, area);
    var data := F.Data(cam, im, F.ChunkOf(cam, raw, 0, cam.nrows), cam.nrows);
    var blended := Blended(out, dets, area, cam.amps, cam.nrows, data, F.Starts(cam, cam.nrows), cam.N());
    var at := Cells(cam, dets, area);
    CellsPermute(cam, dets, area);
    forall k | 0 <= k < |raw|
      ensures raw[k] == blended[at[k]]
    {
      RawIsBlended(cam, dets, area, raw, im, out, k);
    }
    Rearranged(raw, blended, at);
    SomeDetector(cam, dets, area);
    DetShare(|dets|, area);
  }

  lemma RawIsBlended<T>(cam: F.Camera, dets: seq<Det>, area: nat, raw: seq<T>, im: seq<T>, out: seq<T>, k: nat)
    requires Tiled(cam, dets, area) && |raw| == |im| == F.FramePixels(cam) && |out| == |dets| * area && k < |raw|
    ensures cam.Wired() && Missing(dets, cam.amps, 0) == cam.N()
    ensures CanBlendAll(dets, area, cam.amps, cam.nrows, F.Starts(cam, cam.nrows), F.FramePixels(cam), |out|)
    ensures Blended(out, dets, area, cam.amps, cam.nrows, F.Data(cam, im, F.ChunkOf(cam, raw, 0, cam.nrows), cam.nrows),
                    F.Starts(cam, cam.nrows), cam.N())[CellOfRaw(cam, dets, area, k)]
         == raw[k]
  {
    hide Tiled, Blended, Missing, CanBlendAll, PixelCell, RawPixel, F.RawCell, F.Data, F.ChunkOf, F.Starts,
         F.FramePixels;
    WiredIfTiled(cam, dets, area);
    var (a, y, x) := RawPixel(cam, k);
    BlendedPixel(cam, dets, area, raw, im, out, a, y, x);
  }

  lemma SomeDetector(cam: F.Camera, dets: seq<Det>, area: nat)
    requires Tiled(cam, dets, area)
    ensures |dets| > 0
  {
    assert DetOf(dets, cam.amps[0]) >= 0;
  }

  lemma DetShare(n: nat, area: nat)
    requires n > 0
    ensures 0 <= n * area && U.PerBlock(n * area, n) == area
  {
    U.WholeParts(n, area);
  }
}
