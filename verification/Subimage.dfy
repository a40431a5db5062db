/** Copying a subimage into a larger one: GU_add_subimage and GF_add_subimage, over any pixel type. */
module Subimage {
  import opened Grid

  /** The image with an sw by sh subimage laid over it, its first pixel at row y0 and column x0. */
  function Paste<T>(image: seq<T>, w: nat, sub: seq<T>, x0: nat, y0: nat, sw: nat, sh: nat): (r: seq<T>)
    requires w > 0 && |sub| == sw * sh
    ensures |r| == |image|
  {
    seq(|image|, p requires 0 <= p < |image| =>
      if Covers(x0, y0, sw, sh, p / w, p % w) then
        CellInside(sw, sh, p / w - y0, p % w - x0);
        sub[Cell(sw, p / w - y0, p % w - x0)]
      else image[p])
  }

  predicate Covers(x0: int, y0: int, sw: nat, sh: nat, y: int, x: int) {
    y0 <= y < y0 + sh && x0 <= x < x0 + sw
  }

  lemma PasteAt<T>(image: seq<T>, w: nat, sub: seq<T>, x0: nat, y0: nat, sw: nat, sh: nat, y: int, x: int)
    requires |sub| == sw * sh && 0 <= x < w && 0 <= Cell(w, y, x) < |image|
    ensures Covers(x0, y0, sw, sh, y, x) ==>
              && 0 <= Cell(sw, y - y0, x - x0) < |sub|
              && Paste(image, w, sub, x0, y0, sw, sh)[Cell(w, y, x)] == sub[Cell(sw, y - y0, x - x0)]
    ensures !Covers(x0, y0, sw, sh, y, x) ==>
              Paste(image, w, sub, x0, y0, sw, sh)[Cell(w, y, x)] == image[Cell(w, y, x)]
  {
    CellSplit(w, y, x);
    if Covers(x0, y0, sw, sh, y, x) {
      CellInside(sw, sh, y - y0, x - x0);
    }
  }

  /** One more row is one more run of cells. */
  lemma PasteRow<T>(image: seq<T>, w: nat, sub: seq<T>, x0: nat, y0: nat, sw: nat, k: nat, lo: nat)
    requires w > 0 && x0 + sw <= w && lo == sw * k && |sub| == lo + sw
    requires Cell(w, y0 + k, x0) >= 0 && Cell(w, y0 + k, x0) + sw <= |image|
    ensures lo + sw == sw * (k + 1)
    ensures Splice(Paste(image, w, sub[..lo], x0, y0, sw, k), Cell(w, y0 + k, x0), sub[lo..])
         == Paste(image, w, sub, x0, y0, sw, k + 1)
  {
    MulSplit(k, 1, sw);
    var at := Cell(w, y0 + k, x0);
    var before, after := Paste(image, w, sub[..lo], x0, y0, sw, k), Paste(image, w, sub, x0, y0, sw, k + 1);
    forall p | 0 <= p < |image|
      ensures Splice(before, at, sub[lo..])[p] == after[p]
    {
      CellJoin'(w, p);
      PasteAt(image, w, sub[..lo], x0, y0, sw, k, p / w, p % w);
      PasteAt(image, w, sub, x0, y0, sw, k + 1, p / w, p % w);
      RunIsRow(w, y0 + k, x0, sw, p);
    }
  }

  lemma CellJoin'(w: nat, p: nat)
    requires w > 0
    ensures 0 <= p % w < w && Cell(w, p / w, p % w) == p
  {
  }

  /** A run of cells inside one row covers that row's pixels. */
  lemma RunIsRow(w: nat, y: nat, x0: nat, n: nat, p: nat)
    requires w > 0 && x0 + n <= w
    ensures Cell(w, y, x0) <= p < Cell(w, y, x0) + n <==> p / w == y && x0 <= p % w < x0 + n
    ensures p / w == y ==> p - Cell(w, y, x0) == p % w - x0
  {
    CellJoin'(w, p);
    if Cell(w, y, x0) <= p < Cell(w, y, x0) + n {
      CellInjective(w, y, p - Cell(w, y, 0), p / w, p % w);
    }
  }

  /**
   * Pastes the subimage that starts at cell `from` of src into the image of `size` cells that starts at
   * cell `base` of gen.
   */
  method AddSubimage<T>(gen: array<T>, base: nat, ghost size: nat, src: array<T>, from: nat,
                        subxstart: int, subystart: int, subcols: nat, subrows: nat, totalcols: nat)
    requires gen != src && totalcols > 0 && 1 <= subxstart && 1 <= subystart && base + size <= gen.Length
    requires subxstart - 1 + subcols <= totalcols && (subystart - 1 + subrows) * totalcols <= size
    requires from + subcols * subrows <= src.Length
    modifies gen
    ensures gen[..] == Splice(old(gen[..]), base,
                              Paste(old(gen[base..base + size]), totalcols, src[from..from + subcols * subrows],
                                    subxstart - 1, subystart - 1, subcols, subrows))
  {
    hide Paste, Splice, Cell;
    var subyend := subystart + subrows - 1;
    var subptr, y := from, subystart - 1;
    ghost var was, done := gen[..], 0;
    ghost var image, sub := gen[base..base + size], src[..][from..from + subcols * subrows];
    assert sub == src[from..from + subcols * subrows];
    PasteNothing(image, totalcols, subxstart - 1, subystart - 1, subcols);
    SpliceSame(was, base, size);
    while y < subyend
      invariant 0 <= done <= |sub| && done == subcols * (y - (subystart - 1))
      invariant subystart - 1 <= y <= subyend && subptr == from + done
      invariant gen[..] == Splice(was, base, Paste(image, totalcols, sub[..done], subxstart - 1, subystart - 1,
                                                   subcols, y - (subystart - 1)))
    {
      ghost var k := y - (subystart - 1);
      NextRow(subcols, k, subrows);
      RowStart(totalcols, y, subxstart - 1, subcols, subystart - 1 + subrows);
      SliceOfSlice(src[..], from, |sub|, done, subcols);
      PasteStep(was, base, image, totalcols, sub, subxstart - 1, subystart - 1, subcols, k, done);
      CellIs(totalcols, y, subxstart - 1);
      CopyCells(gen, base + (y * totalcols + (subxstart - 1)), src, subptr, subcols);
      subptr, y := subptr + subcols, y + 1;
      done := done + subcols;
    }
    assert sub[..done] == sub;
  }

  lemma NextRow(cols: nat, k: nat, rows: nat)
    requires k < rows
    ensures 0 <= cols * k && cols * k + cols == cols * (k + 1) <= cols * rows
  {
    MulMonotone(0, k, cols);
    MulMonotone(k + 1, rows, cols);
    MulSplit(k, 1, cols);
  }

  lemma CellIs(w: nat, y: int, x: int)
    ensures Cell(w, y, x) == y * w + x
  {
  }

  /** Writing one more row into a buffer that holds the image with the rows before it. */
  lemma PasteStep<T>(was: seq<T>, base: nat, image: seq<T>, w: nat, sub: seq<T>, x0: nat, y0: nat, sw: nat, k: nat,
                     lo: nat)
    requires w > 0 && x0 + sw <= w && lo == sw * k && lo + sw <= |sub| && base + |image| <= |was|
    requires 0 <= Cell(w, y0 + k, x0) && Cell(w, y0 + k, x0) + sw <= |image|
    ensures lo + sw == sw * (k + 1)
    ensures Splice(Splice(was, base, Paste(image, w, sub[..lo], x0, y0, sw, k)), base + Cell(w, y0 + k, x0),
                   sub[lo..lo + sw])
         == Splice(was, base, Paste(image, w, sub[..lo + sw], x0, y0, sw, k + 1))
  {
    hide Paste, Splice, Cell;
    var part := sub[..lo + sw];
    assert part[..lo] == sub[..lo] && part[lo..] == sub[lo..lo + sw];
    PasteRow(image, w, part, x0, y0, sw, k, lo);
    SpliceNested(was, base, Paste(image, w, sub[..lo], x0, y0, sw, k), Cell(w, y0 + k, x0), sub[lo..lo + sw]);
  }

  lemma PasteNothing<T>(image: seq<T>, w: nat, x0: nat, y0: nat, sw: nat)
    requires w > 0
    ensures sw * 0 == 0 && Paste(image, w, [], x0, y0, sw, 0) == image
  {
  }

  lemma RowStart(w: nat, y: nat, x0: nat, n: nat, h: nat)
    requires x0 + n <= w && y < h
    ensures 0 <= Cell(w, y, x0) && Cell(w, y, x0) + n <= h * w
  {
    MulMonotone(0, y, w);
    MulMonotone(y + 1, h, w);
    MulSplit(y, 1, w);
  }
}
