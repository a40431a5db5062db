/** Row-major pixel buffers: a block `w` pixels wide keeps pixel (y, x) in cell `y * w + x`. */
module Grid {

  function Cell(w: nat, y: int, x: int): int {
    y * w + x
  }

  lemma MulMonotone(a: int, b: int, w: nat)
    requires a <= b
    ensures a * w <= b * w
  {
    assert (b - a) * w >= 0;
  }

  lemma MulSplit(a: int, b: int, w: int)
    ensures (a + b) * w == a * w + b * w
  {
  }

  lemma RowEnd(w: nat, y: int)
    ensures Cell(w, y, w) == Cell(w, y + 1, 0)
  {
  }

  /** Different pixels of a block have different cells. */
  lemma CellInjective(w: nat, y: int, x: int, y': int, x': int)
    requires 0 <= x < w && 0 <= x' < w
    requires Cell(w, y, x) == Cell(w, y', x')
    ensures y == y' && x == x'
  {
    if y > y' {
      MulMonotone(y' + 1, y, w);
      assert false;
    } else if y < y' {
      MulMonotone(y + 1, y', w);
      assert false;
    }
  }

  /** A cell of a row determines its row and column. */
  lemma CellSplit(w: nat, y: int, x: int)
    requires 0 <= x < w
    ensures Cell(w, y, x) / w == y
    ensures Cell(w, y, x) % w == x
  {
    var p := Cell(w, y, x);
    CellInjective(w, p / w, p % w, y, x);
  }

  /** Pixels of a `w` by `h` block stay inside its `w * h` cells. */
  lemma CellInside(w: nat, h: nat, y: int, x: int)
    requires 0 <= y < h && 0 <= x < w
    ensures 0 <= Cell(w, y, x) < w * h
  {
    MulMonotone(0, y, w);
    MulMonotone(y + 1, h, w);
    MulSplit(y, 1, w);
  }

  /** Every cell of a block is the cell of exactly one pixel. */
  lemma CellJoin(w: nat, h: nat, p: int)
    requires 0 <= p < w * h
    ensures w > 0 && 0 <= p / w < h && 0 <= p % w < w
    ensures Cell(w, p / w, p % w) == p
  {
    assert w > 0;
    if p / w >= h {
      MulMonotone(h, p / w, w);
      assert false;
    }
  }

  /** The opposite pixel is as far from the end of the block. */
  lemma MirrorCell(ncols: nat, nrows: nat, y: int, x: int)
    requires 0 <= y < nrows && 0 <= x < ncols
    ensures ncols * nrows - 1 - Cell(ncols, nrows - 1 - y, ncols - 1 - x) == Cell(ncols, y, x)
  {
    MulSplit(nrows - 1 - y, y + 1, ncols);
    MulSplit(y, 1, ncols);
  }

  // ---- parts of a buffer ----

  lemma SliceOfSlice<T>(s: seq<T>, base: nat, n: nat, lo: nat, k: nat)
    requires base + n <= |s| && lo + k <= n
    ensures s[base..base + n][lo..lo + k] == s[base + lo..base + lo + k]
  {
    var block := s[base..base + n];
    var inner, direct := block[lo..lo + k], s[base + lo..base + lo + k];
    forall i | 0 <= i < k
      ensures inner[i] == direct[i]
    {
      assert inner[i] == block[lo + i];
    }
  }

  /** Buffer s after x has been written at cell `at`. */
  function Splice<T>(s: seq<T>, at: nat, x: seq<T>): (r: seq<T>)
    requires at + |x| <= |s|
    ensures |r| == |s|
  {
    seq(|s|, p requires 0 <= p < |s| => if at <= p < at + |x| then x[p - at] else s[p])
  }

  /** A block written piece by piece from its front. */
  lemma SpliceFront<T>(s: seq<T>, at: nat, x: seq<T>, lo: nat, n: nat)
    requires at + |x| <= |s| && lo + n <= |x|
    ensures Splice(Splice(s, at, x[..lo]), at + lo, x[lo..lo + n]) == Splice(s, at, x[..lo + n])
  {
  }

  /** A block written piece by piece from its back. */
  lemma SpliceBack<T>(s: seq<T>, at: nat, x: seq<T>, hi: nat, n: nat)
    requires at + |x| <= |s| && n <= hi <= |x|
    ensures Splice(Splice(s, at + hi, x[hi..]), at + (hi - n), x[hi - n..hi]) == Splice(s, at + (hi - n), x[hi - n..])
  {
  }

  lemma SpliceNothing<T>(s: seq<T>, at: nat)
    requires at <= |s|
    ensures Splice(s, at, []) == s
  {
  }

  /** Only the changed part of a block needs to be written. */
  lemma SplicePart<T>(s: seq<T>, at: nat, x: seq<T>, lo: nat, hi: nat)
    requires at + |x| <= |s| && lo <= hi <= |x|
    requires forall p :: 0 <= p < |x| && !(lo <= p < hi) ==> x[p] == s[at + p]
    ensures Splice(s, at + lo, x[lo..hi]) == Splice(s, at, x)
  {
  }

  lemma SpliceHere<T>(s: seq<T>, at: nat, x: seq<T>)
    requires at + |x| <= |s|
    ensures Splice(s, at, x)[at..at + |x|] == x
  {
  }

  lemma SpliceElsewhere<T>(s: seq<T>, at: nat, x: seq<T>, lo: nat, n: nat)
    requires at + |x| <= |s| && lo + n <= |s|
    requires lo + n <= at || at + |x| <= lo
    ensures Splice(s, at, x)[lo..lo + n] == s[lo..lo + n]
  {
  }

  /** A second write over the front of the first one. */
  lemma SpliceOver<T>(s: seq<T>, at: nat, x: seq<T>, y: seq<T>)
    requires at + |x| <= |s| && |y| <= |x|
    ensures Splice(Splice(s, at, x), at, y) == Splice(s, at, y + x[|y|..])
    ensures Splice(s, at, x)[at..at + |y|] == x[..|y|]
  {
  }

  lemma SpliceSame<T>(s: seq<T>, at: nat, n: nat)
    requires at + n <= |s|
    ensures Splice(s, at, s[at..at + n]) == s
  {
  }

  lemma SpliceWhole<T>(s: seq<T>, x: seq<T>)
    requires |x| == |s|
    ensures Splice(s, 0, x) == x
    ensures s[0..0 + |s|] == s
  {
  }

  /** A write inside a block that has been written. */
  lemma SpliceNested<T>(s: seq<T>, at: nat, x: seq<T>, i: nat, y: seq<T>)
    requires at + |x| <= |s| && i + |y| <= |x|
    ensures Splice(Splice(s, at, x), at + i, y) == Splice(s, at, Splice(x, i, y))
  {
  }

  /** memcpy between two buffers. */
  method CopyCells<T>(dst: array<T>, at: nat, src: array<T>, from: nat, n: nat)
    requires dst != src && at + n <= dst.Length && from + n <= src.Length
    modifies dst
    ensures dst[..] == Splice(old(dst[..]), at, src[from..from + n])
  {
    forall k | 0 <= k < n {
      dst[at + k] := src[from + k];
    }
  }
}
