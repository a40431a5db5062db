/** Quarter turns of an image in place: RI_SHORT, RI_LONG and RI_FLOAT over any pixel type. */
module Rotation {
  import opened Grid

  /** C's conversion to an integer drops the fraction. */
  function Trunc(r: real): int {
    if r >= 0.0 then r.Floor else -((-r).Floor)
  }

  predicate QuarterTurn(rotation: int) {
    rotation in {90, 270, -90, -270}
  }

  function Sine(rotation: int): real {
    if rotation == 90 || rotation == -270 then 1.0 else -1.0
  }

  /** Column of the turned image; the cosine of a quarter turn is 0. */
  function TurnedCol(nrows: nat, rotation: int, y: int): int {
    var icorr := if rotation == 90 then 1.0 else 0.0;
    Trunc(-(y as real - nrows as real / 2.0) * Sine(rotation) + (nrows / 2) as real - icorr)
  }

  /** Row of the turned image. */
  function TurnedRow(ncols: nat, rotation: int, x: int): int {
    var jcorr := if rotation == 90 then 0.0 else 1.0;
    Trunc((x as real - ncols as real / 2.0) * Sine(rotation) + (ncols / 2) as real - jcorr)
  }

  /** The formula sends the pixels of an ncols by nrows block one to one onto the transposed block. */
  ghost predicate PermutesPixels(ncols: nat, nrows: nat, rotation: int) {
    && (forall x :: 0 <= x < ncols ==> 0 <= TurnedRow(ncols, rotation, x) < ncols)
    && (forall y :: 0 <= y < nrows ==> 0 <= TurnedCol(nrows, rotation, y) < nrows)
    && (forall x, x' :: 0 <= x < x' < ncols ==> TurnedRow(ncols, rotation, x) != TurnedRow(ncols, rotation, x'))
    && (forall y, y' :: 0 <= y < y' < nrows ==> TurnedCol(nrows, rotation, y) != TurnedCol(nrows, rotation, y'))
  }

  predicate EvenOrOne(n: nat) {
    n % 2 == 0 || n == 1
  }

  lemma HalfOf(n: nat)
    ensures n % 2 == 0 ==> n as real / 2.0 == (n / 2) as real
    ensures n % 2 == 1 ==> n as real / 2.0 == (n / 2) as real + 0.5
  {
    assert n == 2 * (n / 2) + n % 2;
    assert n as real == 2.0 * (n / 2) as real + (n % 2) as real;
  }

  lemma TurnedColValue(nrows: nat, rotation: int, y: int)
    requires QuarterTurn(rotation) && 0 <= y < nrows
    ensures rotation == 90 && EvenOrOne(nrows) ==> TurnedCol(nrows, rotation, y) == nrows - 1 - y
    ensures rotation == 90 && nrows % 2 == 1 && y < nrows - 1 ==> TurnedCol(nrows, rotation, y) == nrows - 2 - y
    ensures rotation == 90 && nrows % 2 == 1 && y == nrows - 1 ==> TurnedCol(nrows, rotation, y) == 0
    ensures rotation in {270, -90} && EvenOrOne(nrows) ==> TurnedCol(nrows, rotation, y) == y
    ensures rotation in {270, -90} && nrows % 2 == 1 ==> TurnedCol(nrows, rotation, y) == if y == 0 then 0 else y - 1
  {
    HalfOf(nrows);
  }

  lemma TurnedRowValue(ncols: nat, rotation: int, x: int)
    requires QuarterTurn(rotation) && 0 <= x < ncols
    ensures rotation == 90 && EvenOrOne(ncols) ==> TurnedRow(ncols, rotation, x) == x
    ensures rotation == 90 && ncols % 2 == 1 ==> TurnedRow(ncols, rotation, x) == if x == 0 then 0 else x - 1
    ensures rotation in {270, -90} && EvenOrOne(ncols) ==> TurnedRow(ncols, rotation, x) == ncols - 1 - x
    ensures rotation in {270, -90} && ncols % 2 == 1 ==>
              TurnedRow(ncols, rotation, x) == if x == ncols - 1 then 0 else ncols - 2 - x
    ensures rotation == -270 && x == 0 ==> TurnedRow(ncols, rotation, x) == -1
  {
    HalfOf(ncols);
  }

  /**
   * Exactly when the half-integer formula turns an image without losing a pixel: the angle is not
   * -270, and each dimension is even or 1.
   */
  lemma FormulaPermutesIff(ncols: nat, nrows: nat, rotation: int)
    requires QuarterTurn(rotation) && ncols > 0 && nrows > 0
    ensures PermutesPixels(ncols, nrows, rotation)
            <==> rotation != -270 && EvenOrOne(ncols) && EvenOrOne(nrows)
  {
    forall x | 0 <= x < ncols { TurnedRowValue(ncols, rotation, x); }
    forall y | 0 <= y < nrows { TurnedColValue(nrows, rotation, y); }
    if rotation == -270 {
      assert TurnedRow(ncols, rotation, 0) == -1;
    } else if !EvenOrOne(ncols) {
      var x := if rotation == 90 then 0 else ncols - 2;
      assert TurnedRow(ncols, rotation, x) == TurnedRow(ncols, rotation, x + 1);
    } else if !EvenOrOne(nrows) {
      var y := if rotation == 90 then nrows - 2 else 0;
      assert TurnedCol(nrows, rotation, y) == TurnedCol(nrows, rotation, y + 1);
    }
  }

  // ---- whole images ----

  predicate Turnable(ncols: nat, nrows: nat, rotation: int) {
    rotation in {90, 270, -90} && EvenOrOne(ncols) && EvenOrOne(nrows)
  }

  /** The cell of the upright image that comes to cell p of the turned one, nrows wide. */
  function TurnSource(ncols: nat, nrows: nat, rotation: int, p: int): int {
    if nrows == 0 then 0
    else if rotation == 90 then Cell(ncols, nrows - 1 - p % nrows, p / nrows)
    else Cell(ncols, p % nrows, ncols - 1 - p / nrows)
  }

  lemma TurnSourceInside(ncols: nat, nrows: nat, rotation: int, p: int)
    requires 0 <= p < ncols * nrows
    ensures nrows > 0 && ncols > 0 && 0 <= TurnSource(ncols, nrows, rotation, p) < ncols * nrows
  {
    assert nrows * ncols == ncols * nrows;
    CellJoin(nrows, ncols, p);
    if rotation == 90 {
      CellInside(ncols, nrows, nrows - 1 - p % nrows, p / nrows);
    } else {
      CellInside(ncols, nrows, p % nrows, ncols - 1 - p / nrows);
    }
  }

  lemma TurnSourceInjective(ncols: nat, nrows: nat, rotation: int, p: int, p': int)
    requires 0 <= p < ncols * nrows && 0 <= p' < ncols * nrows
    requires TurnSource(ncols, nrows, rotation, p) == TurnSource(ncols, nrows, rotation, p')
    ensures p == p'
  {
    hide Cell;
    assert nrows * ncols == ncols * nrows;
    CellJoin(nrows, ncols, p);
    CellJoin(nrows, ncols, p');
    PositionInjective(ncols, nrows, rotation, p / nrows, p % nrows, p' / nrows, p' % nrows);
  }

  lemma PositionInjective(ncols: nat, nrows: nat, rotation: int, j: int, i: int, j': int, i': int)
    requires 0 <= j < ncols && 0 <= j' < ncols && 0 <= i < nrows && 0 <= i' < nrows
    requires if rotation == 90 then Cell(ncols, nrows - 1 - i, j) == Cell(ncols, nrows - 1 - i', j')
             else Cell(ncols, i, ncols - 1 - j) == Cell(ncols, i', ncols - 1 - j')
    ensures j == j' && i == i'
  {
    hide Cell;
    if rotation == 90 {
      CellInjective(ncols, nrows - 1 - i, j, nrows - 1 - i', j');
    } else {
      CellInjective(ncols, i, ncols - 1 - j, i', ncols - 1 - j');
    }
  }

  function Turned<T>(s: seq<T>, ncols: nat, nrows: nat, rotation: int): (r: seq<T>)
    requires |s| == ncols * nrows
    ensures |r| == |s|
  {
    seq(|s|, p requires 0 <= p < |s| =>
      TurnSourceInside(ncols, nrows, rotation, p);
      s[TurnSource(ncols, nrows, rotation, p)])
  }

  /** The floating-point position of pixel (y, x) is the cell the turned image takes it from. */
  lemma FormulaMeetsTurn(ncols: nat, nrows: nat, rotation: int, y: int, x: int)
    requires Turnable(ncols, nrows, rotation) && 0 <= y < nrows && 0 <= x < ncols
    ensures var p := Cell(nrows, TurnedRow(ncols, rotation, x), TurnedCol(nrows, rotation, y));
            0 <= p < ncols * nrows && TurnSource(ncols, nrows, rotation, p) == Cell(ncols, y, x)
  {
    TurnedRowValue(ncols, rotation, x);
    TurnedColValue(nrows, rotation, y);
    var j, i := TurnedRow(ncols, rotation, x), TurnedCol(nrows, rotation, y);
    CellInside(nrows, ncols, j, i);
    CellSplit(nrows, j, i);
  }

  /** The angles for which every computed position lies in the block, whatever its dimensions. */
  predicate StaysInside(rotation: int) {
    rotation in {90, 270, -90}
  }

  /** The cell the loops write pixel k of the block to. */
  function Target(ncols: nat, nrows: nat, rotation: int, k: nat): int
    requires ncols > 0
  {
    Cell(nrows, TurnedRow(ncols, rotation, k % ncols), TurnedCol(nrows, rotation, k / ncols))
  }

  lemma TargetInside(ncols: nat, nrows: nat, rotation: int, y: nat, x: nat)
    requires StaysInside(rotation) && y < nrows && x < ncols
    ensures 0 <= Cell(ncols, y, x) < ncols * nrows
    ensures Target(ncols, nrows, rotation, Cell(ncols, y, x))
         == Cell(nrows, TurnedRow(ncols, rotation, x), TurnedCol(nrows, rotation, y))
    ensures 0 <= Target(ncols, nrows, rotation, Cell(ncols, y, x)) < ncols * nrows
  {
    hide TurnedRow, TurnedCol, Cell;
    CellInside(ncols, nrows, y, x);
    CellSplit(ncols, y, x);
    TurnedInside(ncols, nrows, rotation, y, x);
    CellInside(nrows, ncols, TurnedRow(ncols, rotation, x), TurnedCol(nrows, rotation, y));
    assert nrows * ncols == ncols * nrows;
  }

  lemma TurnedInside(ncols: nat, nrows: nat, rotation: int, y: nat, x: nat)
    requires StaysInside(rotation) && y < nrows && x < ncols
    ensures 0 <= TurnedRow(ncols, rotation, x) < ncols && 0 <= TurnedCol(nrows, rotation, y) < nrows
  {
    hide TurnedRow, TurnedCol;
    TurnedRowValue(ncols, rotation, x);
    TurnedColValue(nrows, rotation, y);
  }

  /** The last of the first k pixels that is written to cell p, or -1. */
  function LastSource(ncols: nat, nrows: nat, rotation: int, k: nat, p: int): (source: int)
    requires ncols > 0
    ensures -1 <= source < k
    ensures source >= 0 ==> Target(ncols, nrows, rotation, source) == p
    ensures forall j: nat :: source < j < k ==> Target(ncols, nrows, rotation, j) != p
  {
    if k == 0 then -1
    else if Target(ncols, nrows, rotation, k - 1) == p then k - 1
    else LastSource(ncols, nrows, rotation, k - 1, p)
  }

  /**
   * The copy the block is turned in, after the first k pixels of s: a cell that one of them is written to holds
   * the last of those, and any other cell what the copy was made with.
   */
  function Scattered<T>(s: seq<T>, ncols: nat, nrows: nat, rotation: int, k: nat, junk: seq<T>): (r: seq<T>)
    requires k <= |s|
    ensures |r| == |s|
  {
    if ncols == 0 then s
    else
      seq(|s|, p requires 0 <= p < |s| =>
        var source := LastSource(ncols, nrows, rotation, k, p);
        if source >= 0 then s[source] else JunkAt(junk, p, s))
  }

  /** Cell p of the copy as it was made. */
  function JunkAt<T>(junk: seq<T>, p: nat, s: seq<T>): T
    requires p < |s|
  {
    if p < |junk| then junk[p] else s[p]
  }

  lemma ScatteredNone<T>(s: seq<T>, ncols: nat, nrows: nat, rotation: int, junk: seq<T>)
    requires ncols > 0 && |junk| == |s|
    ensures Scattered(s, ncols, nrows, rotation, 0, junk) == junk
  {
  }

  lemma ScatteredOne<T>(s: seq<T>, ncols: nat, nrows: nat, rotation: int, k: nat, junk: seq<T>)
    requires ncols > 0 && k < |s| && 0 <= Target(ncols, nrows, rotation, k) < |s|
    ensures Scattered(s, ncols, nrows, rotation, k, junk)[Target(ncols, nrows, rotation, k) := s[k]]
         == Scattered(s, ncols, nrows, rotation, k + 1, junk)
  {
    hide Target;
  }

  /** Where the formula permutes the pixels, the copy ends as the exact turn. */
  lemma ScatteredIsTurned<T>(s: seq<T>, ncols: nat, nrows: nat, rotation: int, junk: seq<T>)
    requires Turnable(ncols, nrows, rotation) && |s| == ncols * nrows
    ensures Scattered(s, ncols, nrows, rotation, |s|, junk) == Turned(s, ncols, nrows, rotation)
  {
    forall p | 0 <= p < |s|
      ensures Scattered(s, ncols, nrows, rotation, |s|, junk)[p] == Turned(s, ncols, nrows, rotation)[p]
    {
      TurnSourceInside(ncols, nrows, rotation, p);
      var t := TurnSource(ncols, nrows, rotation, p);
      TargetOfSource(ncols, nrows, rotation, t);
      TurnSourceInjective(ncols, nrows, rotation, Target(ncols, nrows, rotation, t), p);
      TargetOfSource(ncols, nrows, rotation, LastSource(ncols, nrows, rotation, |s|, p));
    }
  }

  /** The last cell of the turned block is written exactly when the formula permutes the pixels. */
  lemma LastCellWrittenIff(ncols: nat, nrows: nat, rotation: int)
    requires StaysInside(rotation) && ncols > 0 && nrows > 0
    ensures ncols * nrows > 0
    ensures LastSource(ncols, nrows, rotation, ncols * nrows, ncols * nrows - 1) >= 0
            <==> Turnable(ncols, nrows, rotation)
  {
    hide LastSource, Cell;
    var size := ncols * nrows;
    CellInside(ncols, nrows, 0, 0);
    var source := LastSource(ncols, nrows, rotation, size, size - 1);
    if Turnable(ncols, nrows, rotation) {
      TurnSourceInside(ncols, nrows, rotation, size - 1);
      var t := TurnSource(ncols, nrows, rotation, size - 1);
      TargetOfSource(ncols, nrows, rotation, t);
      TurnSourceInjective(ncols, nrows, rotation, Target(ncols, nrows, rotation, t), size - 1);
    } else if source >= 0 {
      CellJoin(ncols, nrows, source);
      LastCellUntouched(ncols, nrows, rotation, source / ncols, source % ncols);
      assert false;
    }
  }

  lemma LastCellUntouched(ncols: nat, nrows: nat, rotation: int, y: nat, x: nat)
    requires StaysInside(rotation) && y < nrows && x < ncols && !Turnable(ncols, nrows, rotation)
    ensures Cell(nrows, TurnedRow(ncols, rotation, x), TurnedCol(nrows, rotation, y)) != ncols * nrows - 1
  {
    hide TurnedRow, TurnedCol;
    TurnedInside(ncols, nrows, rotation, y, x);
    TurnedRowValue(ncols, rotation, x);
    TurnedColValue(nrows, rotation, y);
    var j, i := TurnedRow(ncols, rotation, x), TurnedCol(nrows, rotation, y);
    assert j < ncols - 1 || i < nrows - 1;
    LastCell(ncols, nrows);
    if Cell(nrows, j, i) == ncols * nrows - 1 {
      CellInjective(nrows, j, i, ncols - 1, nrows - 1);
    }
  }

  lemma LastCell(ncols: nat, nrows: nat)
    requires ncols > 0 && nrows > 0
    ensures Cell(nrows, ncols - 1, nrows - 1) == ncols * nrows - 1
  {
    MulSplit(ncols - 1, 1, nrows);
  }

  lemma TargetOfSource(ncols: nat, nrows: nat, rotation: int, k: nat)
    requires Turnable(ncols, nrows, rotation) && k < ncols * nrows
    ensures ncols > 0
    ensures 0 <= Target(ncols, nrows, rotation, k) < ncols * nrows
    ensures TurnSource(ncols, nrows, rotation, Target(ncols, nrows, rotation, k)) == k
  {
    CellJoin(ncols, nrows, k);
    FormulaMeetsTurn(ncols, nrows, rotation, k / ncols, k % ncols);
  }

  /** Writes row y of the block into the copy. */
  method TurnRowInto<T>(im: array<T>, base: nat, ncols: nat, nrows: nat, rotation: int, y: nat, rot: array<T>,
                        ghost junk: seq<T>)
    requires StaysInside(rotation) && y < nrows && ncols > 0 && rot != im
    requires base + ncols * nrows <= im.Length && rot.Length == ncols * nrows
    requires 0 <= Cell(ncols, y, 0) <= ncols * nrows
    requires rot[..] == Scattered(im[base..base + ncols * nrows], ncols, nrows, rotation, Cell(ncols, y, 0), junk)
    modifies rot
    ensures 0 <= Cell(ncols, y + 1, 0) <= ncols * nrows
    ensures rot[..] == Scattered(im[base..base + ncols * nrows], ncols, nrows, rotation, Cell(ncols, y + 1, 0), junk)
  {
    hide Target, TurnedCol, TurnedRow, Scattered;
    ghost var was := im[base..base + ncols * nrows];
    var x := 0;
    while x < ncols
      invariant 0 <= x <= ncols && 0 <= Cell(ncols, y, x) <= ncols * nrows
      invariant rot[..] == Scattered(was, ncols, nrows, rotation, Cell(ncols, y, x), junk)
    {
      var i, j := TurnedCol(nrows, rotation, y), TurnedRow(ncols, rotation, x);
      TargetInside(ncols, nrows, rotation, y, x);
      ScatteredOne(was, ncols, nrows, rotation, Cell(ncols, y, x), junk);
      rot[j * nrows + i] := im[base + y * ncols + x];
      x := x + 1;
    }
    RowEnd(ncols, y);
  }

  /**
   * Turns the ncols by nrows block that starts at base, in place; junk is what the copy was made with. Where
   * the formula does not permute the pixels, some of it comes back into the image.
   */
  method RotateImage<T(0)>(im: array<T>, base: nat, ncols: nat, nrows: nat, rotation: int) returns (ghost junk: seq<T>)
    requires StaysInside(rotation)
    requires base + ncols * nrows <= im.Length
    modifies im
    ensures |junk| == ncols * nrows
    ensures im[..] == Splice(old(im[..]), base, Scattered(old(im[base..base + ncols * nrows]), ncols, nrows, rotation,
                                                          ncols * nrows, junk))
  {
    hide Splice, Scattered, Target;
    var size := ncols * nrows;
    ghost var was := im[base..base + size];
    var rot := new T[size];
    junk := rot[..];
    if ncols == 0 {
      assert size == 0;
      NothingScattered(was, nrows, rotation, junk);
    } else {
      ScatteredNone(was, ncols, nrows, rotation, junk);
      var y := 0;
      while y < nrows
        invariant 0 <= y <= nrows && 0 <= Cell(ncols, y, 0) <= size
        invariant im[..] == old(im[..]) && im[base..base + size] == was
        invariant rot[..] == Scattered(was, ncols, nrows, rotation, Cell(ncols, y, 0), junk)
        modifies rot
      {
        TurnRowInto(im, base, ncols, nrows, rotation, y, rot, junk);
        y := y + 1;
      }
      assert Cell(ncols, nrows, 0) == size;
    }
    ghost var turned := rot[..];
    assert turned == Scattered(was, ncols, nrows, rotation, size, junk);
    assert rot[0..size] == turned;
    CopyCells(im, base, rot, 0, size);
  }

  lemma NothingScattered<T>(s: seq<T>, nrows: nat, rotation: int, junk: seq<T>)
    requires |s| == |junk| == 0
    ensures Scattered(s, 0, nrows, rotation, 0, junk) == junk
  {
    assert s == [] == junk;
  }

  lemma TurnedAt<T>(s: seq<T>, ncols: nat, nrows: nat, rotation: int, y: int, x: int)
    requires |s| == ncols * nrows && 0 <= y < nrows && 0 <= x < ncols
    ensures var p := if rotation == 90 then Cell(nrows, x, nrows - 1 - y) else Cell(nrows, ncols - 1 - x, y);
            && 0 <= Cell(ncols, y, x) < |s|
            && 0 <= p < |s|
            && Turned(s, ncols, nrows, rotation)[p] == s[Cell(ncols, y, x)]
  {
    CellInside(ncols, nrows, y, x);
    var j, i := if rotation == 90 then x else ncols - 1 - x, if rotation == 90 then nrows - 1 - y else y;
    CellInside(nrows, ncols, j, i);
    CellSplit(nrows, j, i);
  }

  /** A turn one way and a turn back, on the transposed block, give the image again. */
  lemma TurnBack<T>(s: seq<T>, ncols: nat, nrows: nat)
    requires |s| == ncols * nrows
    ensures Turned(Turned(s, ncols, nrows, 90), nrows, ncols, 270) == s
    ensures Turned(Turned(s, ncols, nrows, 270), nrows, ncols, 90) == s
  {
    forall p | 0 <= p < |s|
      ensures Turned(Turned(s, ncols, nrows, 90), nrows, ncols, 270)[p] == s[p]
      ensures Turned(Turned(s, ncols, nrows, 270), nrows, ncols, 90)[p] == s[p]
    {
      hide Turned, Cell;
      assert nrows * ncols == ncols * nrows;
      CellJoin(ncols, nrows, p);
      var y, x := p / ncols, p % ncols;
      TurnedAt(s, ncols, nrows, 90, y, x);
      TurnedAt(Turned(s, ncols, nrows, 90), nrows, ncols, 270, x, nrows - 1 - y);
      TurnedAt(s, ncols, nrows, 270, y, x);
      TurnedAt(Turned(s, ncols, nrows, 270), nrows, ncols, 90, ncols - 1 - x, y);
    }
  }

  /** Two equal quarter turns reverse the pixel order, so four of them are the identity. */
  lemma TwoTurnsReverse<T>(s: seq<T>, ncols: nat, nrows: nat, p: int)
    requires |s| == ncols * nrows && 0 <= p < |s|
    ensures Turned(Turned(s, ncols, nrows, 90), nrows, ncols, 90)[p] == s[|s| - 1 - p]
  {
    hide Turned, Cell;
    CellJoin(ncols, nrows, p);
    var y, x := nrows - 1 - p / ncols, ncols - 1 - p % ncols;
    assert nrows * ncols == ncols * nrows;
    TurnedAt(s, ncols, nrows, 90, y, x);
    TurnedAt(Turned(s, ncols, nrows, 90), nrows, ncols, 90, x, nrows - 1 - y);
    MirrorCell(ncols, nrows, y, x);
  }

  lemma FourTurns<T>(s: seq<T>, ncols: nat, nrows: nat)
    requires |s| == ncols * nrows
    ensures var half := Turned(Turned(s, ncols, nrows, 90), nrows, ncols, 90);
            Turned(Turned(half, ncols, nrows, 90), nrows, ncols, 90) == s
  {
    var half := Turned(Turned(s, ncols, nrows, 90), nrows, ncols, 90);
    forall p | 0 <= p < |s|
      ensures Turned(Turned(half, ncols, nrows, 90), nrows, ncols, 90)[p] == s[p]
    {
      TwoTurnsReverse(half, ncols, nrows, p);
      TwoTurnsReverse(s, ncols, nrows, |s| - 1 - p);
    }
  }
}
