/** The four pixel orders of GU_SHORT and its siblings, for one amplifier's block. */
module Orientation {
  import opened Grid
  import opened Amplifiers

  /** Every stride-th pixel, n of them, from cell `first` on. */
  function Strided<T>(raw: seq<T>, first: nat, stride: nat, n: nat): (s: seq<T>)
    requires n > 0 ==> first + (n - 1) * stride < |raw|
    ensures |s| == n
  {
    seq(n, k requires 0 <= k < n =>
      StrideInside(first, stride, n, k, |raw|);
      raw[first + k * stride])
  }

  lemma StrideInside(first: nat, stride: nat, n: nat, k: nat, len: nat)
    requires k < n && first + (n - 1) * stride < len
    ensures 0 <= first + k * stride < len
  {
    MulMonotone(k, n - 1, stride);
    assert k * stride >= 0;
  }

  /** Pixels of read channel i: the controller interleaves the channels. */
  function Channel<T>(raw: seq<T>, namps: nat, i: nat, m: nat): (s: seq<T>)
    requires i < namps && m * namps <= |raw|
    ensures |s| == m
  {
    ChannelInside(namps, i, m, |raw|);
    Strided(raw, i, namps, m)
  }

  lemma ChannelAt<T>(raw: seq<T>, namps: nat, i: nat, m: nat, k: nat)
    requires i < namps && m * namps <= |raw| && k < m
    ensures 0 <= i + k * namps < |raw| && Channel(raw, namps, i, m)[k] == raw[i + k * namps]
  {
    ChannelInside(namps, i, m, |raw|);
    StrideInside(i, namps, m, k, |raw|);
  }

  lemma ChannelInside(namps: nat, i: nat, m: nat, len: nat)
    requires i < namps && m * namps <= len
    ensures m > 0 ==> i + (m - 1) * namps < len
  {
  }

  /** Consecutive pixels of a channel, as the loops over rows read them. */
  lemma ChannelSlice<T>(raw: seq<T>, namps: nat, i: nat, m: nat, k: nat, n: nat)
    requires i < namps && m * namps <= |raw| && k + n <= m
    ensures n > 0 ==> i + k * namps + (n - 1) * namps < |raw|
    ensures k * namps >= 0
    ensures Strided(raw, i + k * namps, namps, n) == Channel(raw, namps, i, m)[k..k + n]
  {
    assert k * namps >= 0;
    assert k * namps + (n - 1) * namps == (k + n - 1) * namps;
    MulMonotone(k + n, m, namps);
    var slice, chan := Strided(raw, i + k * namps, namps, n), Channel(raw, namps, i, m);
    forall j | 0 <= j < n
      ensures slice[j] == chan[k..k + n][j]
    {
      assert i + k * namps + j * namps == i + (k + j) * namps;
    }
  }

  /** The read position that ends in cell p of an m-pixel block, or -1 when nothing is written there. */
  function Origin(kind: Bits, ncols: nat, m: nat, p: nat): int
    requires ncols > 0 && p < m
  {
    var rows := m / ncols;
    if kind == LL then p
    else if kind == UR then m - 1 - p
    else if kind == LR then
      if p / ncols < rows then Cell(ncols, p / ncols, ncols - 1 - p % ncols) else -1
    else if kind & UL != 0 then
      var q := p - (m - rows * ncols);
      if q >= 0 then Cell(ncols, rows - 1 - q / ncols, q % ncols) else -1
    else -1
  }

  lemma WholeRows(m: nat, ncols: nat)
    requires ncols > 0
    ensures 0 <= m / ncols * ncols <= m
  {
    MulMonotone(0, m / ncols, ncols);
  }

  lemma OriginInside(kind: Bits, ncols: nat, m: nat, p: nat)
    requires ncols > 0 && p < m
    ensures -1 <= Origin(kind, ncols, m, p) < m
  {
    hide Cell;
    MirroredInside(m, ncols, p);
    RaisedInside(m, ncols, p);
  }

  lemma MirroredInside(m: nat, ncols: nat, p: nat)
    requires ncols > 0 && p < m
    ensures p / ncols < m / ncols ==> 0 <= Cell(ncols, p / ncols, ncols - 1 - p % ncols) < m
  {
    hide Cell;
    WholeRows(m, ncols);
    assert ncols * (m / ncols) == m / ncols * ncols;
    if p / ncols < m / ncols {
      CellInside(ncols, m / ncols, p / ncols, ncols - 1 - p % ncols);
    }
  }

  lemma RaisedInside(m: nat, ncols: nat, p: nat)
    requires ncols > 0 && p < m
    ensures var q := p - (m - m / ncols * ncols);
            q >= 0 ==> 0 <= Cell(ncols, m / ncols - 1 - q / ncols, q % ncols) < m
  {
    hide Cell;
    WholeRows(m, ncols);
    assert ncols * (m / ncols) == m / ncols * ncols;
    var q := p - (m - m / ncols * ncols);
    if q >= 0 {
      CellJoin(ncols, m / ncols, q);
      CellInside(ncols, m / ncols, m / ncols - 1 - q / ncols, q % ncols);
    }
  }

  /** What a block holds after its channel has been unscrambled over the old contents. */
  function Unscrambled<T>(prev: seq<T>, chan: seq<T>, kind: Bits, ncols: nat): (s: seq<T>)
    requires ncols > 0 && |prev| == |chan|
    ensures |s| == |chan|
  {
    seq(|chan|, p requires 0 <= p < |chan| =>
      OriginInside(kind, ncols, |chan|, p);
      var k := Origin(kind, ncols, |chan|, p);
      if k >= 0 then chan[k] else prev[p])
  }

  function TurnRow(kind: Bits, nrows: int, y: int): int {
    if Lower(kind) then y else nrows - 1 - y
  }

  function TurnCol(kind: Bits, ncols: int, x: int): int {
    if Left(kind) then x else ncols - 1 - x
  }

  /** Geometry: lower amplifiers fill rows upwards, upper ones downwards; right ones mirror each row. */
  lemma UnscrambledGeometry<T>(prev: seq<T>, chan: seq<T>, kind: Bits, ncols: nat, nrows: nat, y: int, x: int)
    requires OneHot(kind)
    requires ncols > 0 && |prev| == |chan| == ncols * nrows
    requires 0 <= y < nrows && 0 <= x < ncols
    ensures 0 <= Cell(ncols, y, x) < |chan|
    ensures 0 <= Cell(ncols, TurnRow(kind, nrows, y), TurnCol(kind, ncols, x)) < |chan|
    ensures Unscrambled(prev, chan, kind, ncols)[Cell(ncols, TurnRow(kind, nrows, y), TurnCol(kind, ncols, x))]
         == chan[Cell(ncols, y, x)]
  {
    TurnedOrigin(kind, ncols, nrows, y, x);
  }

  lemma TurnedOrigin(kind: Bits, ncols: nat, nrows: nat, y: int, x: int)
    requires OneHot(kind) && 0 <= y < nrows && 0 <= x < ncols
    ensures 0 <= Cell(ncols, y, x) < ncols * nrows
    ensures var p := Cell(ncols, TurnRow(kind, nrows, y), TurnCol(kind, ncols, x));
            0 <= p < ncols * nrows && Origin(kind, ncols, ncols * nrows, p) == Cell(ncols, y, x)
  {
    var m := ncols * nrows;
    var y', x' := TurnRow(kind, nrows, y), TurnCol(kind, ncols, x);
    CellInside(ncols, nrows, y, x);
    CellInside(ncols, nrows, y', x');
    CellSplit(ncols, y', x');
    CellSplit(ncols, nrows, 0);
    assert m / ncols == nrows;
    if kind == UR {
      MirrorCell(ncols, nrows, y, x);
    }
  }

  /** The same fact read from the cell's side. */
  lemma UnscrambledAt<T>(prev: seq<T>, chan: seq<T>, kind: Bits, ncols: nat, nrows: nat, y: int, x: int)
    requires OneHot(kind)
    requires ncols > 0 && |prev| == |chan| == ncols * nrows
    requires 0 <= y < nrows && 0 <= x < ncols
    ensures 0 <= Cell(ncols, y, x) < |chan|
    ensures 0 <= Cell(ncols, TurnRow(kind, nrows, y), TurnCol(kind, ncols, x)) < |chan|
    ensures Unscrambled(prev, chan, kind, ncols)[Cell(ncols, y, x)]
         == chan[Cell(ncols, TurnRow(kind, nrows, y), TurnCol(kind, ncols, x))]
  {
    UnscrambledGeometry(prev, chan, kind, ncols, nrows, TurnRow(kind, nrows, y), TurnCol(kind, ncols, x));
  }

  /** A type that is no single corner: with the upper left bit it is read as upper left, and otherwise not at all. */
  lemma OtherKinds<T>(prev: seq<T>, chan: seq<T>, kind: Bits, ncols: nat)
    requires ncols > 0 && |prev| == |chan| && kind !in {0x8, 0x4, 0x2, 0x1}
    ensures var upperLeft := Unscrambled(prev, chan, 0x2, ncols);
            Unscrambled(prev, chan, kind, ncols) == if kind & 0x2 != 0 then upperLeft else prev
  {
    hide Cell;
  }

  // ---- flips and half turns ----

  function MirrorCols<T>(s: seq<T>, ncols: nat, nrows: nat): (r: seq<T>)
    requires |s| == ncols * nrows
    ensures |r| == |s|
  {
    seq(|s|, p requires 0 <= p < |s| =>
      CellJoin(ncols, nrows, p);
      CellInside(ncols, nrows, p / ncols, ncols - 1 - p % ncols);
      s[Cell(ncols, p / ncols, ncols - 1 - p % ncols)])
  }

  function MirrorRows<T>(s: seq<T>, ncols: nat, nrows: nat): (r: seq<T>)
    requires |s| == ncols * nrows
    ensures |r| == |s|
  {
    seq(|s|, p requires 0 <= p < |s| =>
      CellJoin(ncols, nrows, p);
      CellInside(ncols, nrows, nrows - 1 - p / ncols, p % ncols);
      s[Cell(ncols, nrows - 1 - p / ncols, p % ncols)])
  }

  function Reversed<T>(s: seq<T>): (r: seq<T>)
    ensures |r| == |s|
  {
    seq(|s|, p requires 0 <= p < |s| => s[|s| - 1 - p])
  }

  /** The mirror or half turn the caller asked for, applied to an image. */
  function Requested<T>(s: seq<T>, ncols: nat, nrows: nat, rotate: int, flip: int): (r: seq<T>)
    requires |s| == ncols * nrows
    ensures |r| == |s|
  {
    var turned := if HalfTurn(rotate) then Reversed(s) else s;
    if flip == FLIPVERT then MirrorCols(turned, ncols, nrows)
    else if flip == FLIPHORI then MirrorRows(turned, ncols, nrows)
    else turned
  }

  lemma ReversedAt<T>(s: seq<T>, ncols: nat, nrows: nat, y: int, x: int)
    requires |s| == ncols * nrows && 0 <= y < nrows && 0 <= x < ncols
    ensures 0 <= Cell(ncols, y, x) < |s|
    ensures 0 <= Cell(ncols, nrows - 1 - y, ncols - 1 - x) < |s|
    ensures Reversed(s)[Cell(ncols, y, x)] == s[Cell(ncols, nrows - 1 - y, ncols - 1 - x)]
  {
    CellInside(ncols, nrows, y, x);
    CellInside(ncols, nrows, nrows - 1 - y, ncols - 1 - x);
    MirrorCell(ncols, nrows, y, x);
  }

  lemma RequestedAt<T>(s: seq<T>, ncols: nat, nrows: nat, rotate: int, flip: int, y: int, x: int)
    requires |s| == ncols * nrows && 0 <= y < nrows && 0 <= x < ncols
    ensures var y' := if HalfTurn(rotate) != (flip == FLIPHORI) then nrows - 1 - y else y;
            var x' := if HalfTurn(rotate) != (flip == FLIPVERT) then ncols - 1 - x else x;
            && 0 <= Cell(ncols, y, x) < |s|
            && 0 <= Cell(ncols, y', x') < |s|
            && Requested(s, ncols, nrows, rotate, flip)[Cell(ncols, y, x)] == s[Cell(ncols, y', x')]
  {
    CellInside(ncols, nrows, y, x);
    CellSplit(ncols, y, x);
    var yf := if flip == FLIPHORI then nrows - 1 - y else y;
    var xf := if flip == FLIPVERT then ncols - 1 - x else x;
    CellInside(ncols, nrows, yf, xf);
    ReversedAt(s, ncols, nrows, yf, xf);
  }

  lemma CornerIsStored(code: nat)
    ensures StoredType(code, 0, NOFLIP) == CornerBit(code)
    ensures !HalfTurn(0)
  {
  }

  /**
   * Storing a flip or a half turn as another corner type changes nothing: unscrambling with the
   * stored type is unscrambling with the requested corner and then flipping and turning the image.
   */
  lemma FlipEliminationIsSound<T>(prev: seq<T>, chan: seq<T>, ncols: nat, nrows: nat,
                                  code: nat, rotate: int, flip: int)
    requires code < 4
    requires ncols > 0 && |prev| == |chan| == ncols * nrows
    ensures Unscrambled(prev, chan, StoredType(code, rotate, flip), ncols)
         == Requested(Unscrambled(prev, chan, CornerBit(code), ncols), ncols, nrows, rotate, flip)
  {
    hide Unscrambled, Requested, StoredType, CornerBit;
    var stored, plain := StoredType(code, rotate, flip), CornerBit(code);
    StoredTypeIsACorner(code, rotate, flip);
    CornerIsStored(code);
    StoredTypeIsACorner(code, 0, NOFLIP);
    var u := Unscrambled(prev, chan, plain, ncols);
    var lhs, rhs := Unscrambled(prev, chan, stored, ncols), Requested(u, ncols, nrows, rotate, flip);
    forall p | 0 <= p < |chan|
      ensures lhs[p] == rhs[p]
    {
      CellJoin(ncols, nrows, p);
      var y, x := p / ncols, p % ncols;
      var y' := if HalfTurn(rotate) != (flip == FLIPHORI) then nrows - 1 - y else y;
      var x' := if HalfTurn(rotate) != (flip == FLIPVERT) then ncols - 1 - x else x;
      UnscrambledAt(prev, chan, stored, ncols, nrows, y, x);
      RequestedAt(u, ncols, nrows, rotate, flip, y, x);
      UnscrambledAt(prev, chan, plain, ncols, nrows, y', x');
    }
  }
}
