/** GU_SHORT: de-interleaving a raw buffer into one block per amplifier, over any pixel type. */
module Unscramble {
  import opened Grid
  import opened Amplifiers
  import opened Orientation
  import opened Rotation

  /** How many whole parts of n pixels there are: pixels of each of n amplifiers, or rows of n pixels. */
  function PerBlock(nelems: nat, n: nat): (m: nat)
    requires n > 0
    ensures m * n <= nelems && n * m <= nelems
  {
    DivisionStays(nelems, n);
    nelems / n
  }

  lemma DivisionStays(nelems: nat, n: nat)
    requires n > 0
    ensures 0 <= nelems / n && nelems / n * n <= nelems && n * (nelems / n) <= nelems
  {
  }

  /** No whole part is left out. */
  lemma EveryWholePart(nelems: nat, n: nat)
    requires n > 0
    ensures PerBlock(nelems, n) * n <= nelems < (PerBlock(nelems, n) + 1) * n
  {
    MulSplit(PerBlock(nelems, n), 1, n);
    assert nelems == nelems / n * n + nelems % n;
  }

  /**
   * One block as the call leaves it: unscrambled, then turned by the formula when the amplifier is rotated;
   * junk is what the copy it is turned in was made with.
   */
  function Block<T>(prev: seq<T>, chan: seq<T>, amp: Amp, junk: seq<T>): (s: seq<T>)
    requires amp.Ncols() > 0 && |prev| == |chan|
    ensures |s| == |chan|
  {
    var u := Unscrambled(prev, chan, amp.kind, amp.Ncols());
    if amp.rotate == 0 then u
    else
      var rows := PerBlock(|chan|, amp.Ncols());
      var used := amp.Ncols() * rows;
      Scattered(u[..used], amp.Ncols(), rows, amp.rotate, used, junk) + u[used..]
  }

  /** A block the formula can turn is unscrambled and exactly turned, whatever the copy was made with. */
  lemma TurnableBlock<T>(prev: seq<T>, chan: seq<T>, amp: Amp, junk: seq<T>, rows: nat)
    requires amp.Ncols() > 0 && |prev| == |chan| == amp.Ncols() * rows
    requires amp.rotate != 0 ==> Turnable(amp.Ncols(), rows, amp.rotate)
    ensures Block(prev, chan, amp, junk) ==
            (if amp.rotate == 0 then Unscrambled(prev, chan, amp.kind, amp.Ncols())
             else Turned(Unscrambled(prev, chan, amp.kind, amp.Ncols()), amp.Ncols(), rows, amp.rotate))
  {
    hide Unscrambled, Turned, Scattered, PerBlock;
    WholeParts(amp.Ncols(), rows);
    var u := Unscrambled(prev, chan, amp.kind, amp.Ncols());
    assert u[..|u|] == u;
    if amp.rotate != 0 {
      ScatteredIsTurned(u, amp.Ncols(), rows, amp.rotate, junk);
    }
  }

  lemma WholeParts(n: nat, k: nat)
    requires n > 0
    ensures 0 <= n * k && PerBlock(n * k, n) == k
  {
    hide Cell;
    MulMonotone(0, k, n);
    CellSplit(n, k, 0);
    assert Cell(n, k, 0) == n * k by { RowStart(n, k); }
  }

  lemma RowStart(n: nat, k: nat)
    ensures Cell(n, k, 0) == n * k
  {
  }

  // ---- the loops of the switch ----

  lemma StrideNext(first: nat, namps: nat, k: nat)
    ensures first + k * namps + namps == first + (k + 1) * namps
  {
  }

  /** Stores n pixels in the order they are read. */
  method CopyForward<T>(raw: array<T>, first: nat, namps: nat, im: array<T>, base: nat, n: nat) returns (next: nat)
    requires raw != im && base + n <= im.Length
    requires n > 0 ==> first + (n - 1) * namps < raw.Length
    modifies im
    ensures next == first + n * namps
    ensures im[..] == Splice(old(im[..]), base, Strided(raw[..], first, namps, n))
  {
    var ptr, procpix := first, 0;
    ghost var was, pixels := im[..], Strided(raw[..], first, namps, n);
    SpliceNothing(was, base);
    while procpix < n
      invariant 0 <= procpix <= n && ptr == first + procpix * namps
      invariant im[..] == Splice(was, base, pixels[..procpix])
    {
      StrideInside(first, namps, n, procpix, raw.Length);
      SpliceFront(was, base, pixels, procpix, 1);
      im[base + procpix] := raw[ptr];
      StrideNext(first, namps, procpix);
      ptr, procpix := ptr + namps, procpix + 1;
    }
    next := ptr;
  }

  /** Stores n pixels from the end of their range back to its start. */
  method CopyBackward<T>(raw: array<T>, first: nat, namps: nat, im: array<T>, base: nat, n: nat) returns (next: nat)
    requires raw != im && base + n <= im.Length
    requires n > 0 ==> first + (n - 1) * namps < raw.Length
    modifies im
    ensures next == first + n * namps
    ensures im[..] == Splice(old(im[..]), base, Reversed(Strided(raw[..], first, namps, n)))
  {
    var ptr, procpix := first, 0;
    ghost var was, pixels := im[..], Reversed(Strided(raw[..], first, namps, n));
    while procpix < n
      invariant 0 <= procpix <= n && ptr == first + procpix * namps
      invariant forall p :: 0 <= p < im.Length ==>
                  im[p] == if base + n - procpix <= p < base + n then pixels[p - base] else was[p]
    {
      StrideInside(first, namps, n, procpix, raw.Length);
      StrideNext(first, namps, procpix);
      im[base + n - procpix - 1] := raw[ptr];
      ptr, procpix := ptr + namps, procpix + 1;
    }
    next := ptr;
  }

  /** One run of a channel, from its pixel lo on, in reading order. */
  method CopyRun<T>(raw: array<T>, namps: nat, i: nat, ghost m: nat, ghost lo: nat, ptr: nat, im: array<T>,
                    base: nat, n: nat)
      returns (next: nat)
    requires raw != im && i < namps && m * namps <= raw.Length && lo + n <= m && base + n <= im.Length
    requires ptr == i + lo * namps
    modifies im
    ensures next == i + (lo + n) * namps
    ensures im[..] == Splice(old(im[..]), base, Channel(raw[..], namps, i, m)[lo..lo + n])
  {
    hide Splice, Strided, Channel;
    ChannelSlice(raw[..], namps, i, m, lo, n);
    MulSplit(lo, n, namps);
    next := CopyForward(raw, ptr, namps, im, base, n);
  }

  /** One run of a channel, backwards. */
  method CopyRunBack<T>(raw: array<T>, namps: nat, i: nat, ghost m: nat, ghost lo: nat, ptr: nat, im: array<T>,
                        base: nat, n: nat)
      returns (next: nat)
    requires raw != im && i < namps && m * namps <= raw.Length && lo + n <= m && base + n <= im.Length
    requires ptr == i + lo * namps
    modifies im
    ensures next == i + (lo + n) * namps
    ensures im[..] == Splice(old(im[..]), base, Reversed(Channel(raw[..], namps, i, m)[lo..lo + n]))
  {
    hide Splice, Strided, Channel, Reversed;
    ChannelSlice(raw[..], namps, i, m, lo, n);
    MulSplit(lo, n, namps);
    next := CopyBackward(raw, ptr, namps, im, base, n);
  }

  lemma RowsBelow(m: nat, ncols: nat, y: nat)
    requires ncols > 0 && y < m / ncols
    ensures 0 <= y * ncols && y * ncols + ncols == (y + 1) * ncols <= m / ncols * ncols <= m
  {
    MulMonotone(y + 1, m / ncols, ncols);
    assert y * ncols >= 0;
  }

  /** Row y of a right lower amplifier is the row read, backwards. */
  lemma MirroredRow<T>(prev: seq<T>, chan: seq<T>, ncols: nat, y: nat, lo: nat)
    requires ncols > 0 && |prev| == |chan| && y < |chan| / ncols && lo == y * ncols && lo + ncols <= |chan|
    ensures Unscrambled(prev, chan, LR, ncols)[lo..lo + ncols] == Reversed(chan[lo..lo + ncols])
  {
    var whole, row := Unscrambled(prev, chan, LR, ncols), chan[lo..lo + ncols];
    forall x | 0 <= x < ncols
      ensures whole[lo + x] == Reversed(row)[x]
    {
      MirroredOrigin(|chan|, ncols, y, lo, x);
      assert row[ncols - 1 - x] == chan[lo + (ncols - 1 - x)];
    }
  }

  lemma MirroredOrigin(m: nat, ncols: nat, y: nat, lo: nat, x: nat)
    requires ncols > 0 && y < m / ncols && lo == y * ncols && lo + ncols <= m && x < ncols
    ensures Origin(LR, ncols, m, lo + x) == lo + (ncols - 1 - x)
  {
    CellSplit(ncols, y, x);
  }

  /** Right lower amplifiers: each row is stored backwards; pixels after the last whole row stay. */
  method CopyMirroredRows<T>(raw: array<T>, namps: nat, i: nat, im: array<T>, base: nat, m: nat, ncols: nat)
    requires raw != im && i < namps && m * namps <= raw.Length && base + m <= im.Length && ncols > 0
    modifies im
    ensures im[..] == Splice(old(im[..]), base,
                             Unscrambled(old(im[base..base + m]), Channel(raw[..], namps, i, m), LR, ncols))
  {
    hide Unscrambled, Splice, Strided, Channel, Reversed;
    ghost var was, prev, chan := im[..], im[base..base + m], Channel(raw[..], namps, i, m);
    ghost var target := Unscrambled(prev, chan, LR, ncols);
    var chunkrows, ptr, y := m / ncols, i, 0;
    SpliceNothing(was, base);
    ghost var lo := 0;
    while y < chunkrows
      invariant 0 <= y <= chunkrows && 0 <= lo == y * ncols <= m
      invariant ptr == i + lo * namps
      invariant im[..] == Splice(was, base, target[..lo])
    {
      RowsBelow(m, ncols, y);
      MirroredRow(prev, chan, ncols, y, lo);
      SpliceFront(was, base, target, lo, ncols);
      ptr := CopyRunBack(raw, namps, i, m, lo, ptr, im, base + y * ncols, ncols);
      y, lo := y + 1, lo + ncols;
    }
    MirroredRest(prev, chan, ncols);
    SplicePart(was, base, target, 0, chunkrows * ncols);
  }

  lemma MirroredRest<T>(prev: seq<T>, chan: seq<T>, ncols: nat)
    requires ncols > 0 && |prev| == |chan|
    ensures 0 <= |chan| / ncols * ncols <= |chan|
    ensures forall p :: |chan| / ncols * ncols <= p < |chan| ==> Unscrambled(prev, chan, LR, ncols)[p] == prev[p]
  {
    var rows := |chan| / ncols;
    assert rows * ncols >= 0;
    forall p | rows * ncols <= p < |chan|
      ensures Unscrambled(prev, chan, LR, ncols)[p] == prev[p]
    {
      RowAfter(rows, ncols, p);
    }
  }

  lemma RowAfter(rows: nat, ncols: nat, p: nat)
    requires ncols > 0 && rows * ncols <= p
    ensures rows <= p / ncols
  {
    if p / ncols < rows {
      MulMonotone(p / ncols + 1, rows, ncols);
      assert false;
    }
  }

  /** Row y of an upper left amplifier is stored y rows from the end of the block. */
  lemma RaisedRow<T>(prev: seq<T>, chan: seq<T>, kind: Bits, ncols: nat, y: nat, lo: nat)
    requires ncols > 0 && |prev| == |chan| && y < |chan| / ncols && lo == y * ncols && lo + ncols <= |chan|
    requires kind != LL && kind != UR && kind != LR && kind & UL != 0
    ensures Unscrambled(prev, chan, kind, ncols)[|chan| - lo - ncols..|chan| - lo] == chan[lo..lo + ncols]
  {
    var rows := |chan| / ncols;
    var u := Unscrambled(prev, chan, kind, ncols)[|chan| - lo - ncols..|chan| - lo];
    forall x | 0 <= x < ncols
      ensures u[x] == chan[lo..lo + ncols][x]
    {
      RaisedOrigin(|chan|, kind, ncols, rows, y, lo, x);
    }
  }

  lemma RowFromEnd(ncols: nat, rows: nat, y: nat, x: nat)
    requires y < rows
    ensures 0 <= rows * ncols - y * ncols - ncols + x == Cell(ncols, rows - 1 - y, x)
  {
    MulMonotone(0, rows - 1 - y, ncols);
    MulSplit(rows - 1 - y, y + 1, ncols);
    MulSplit(y, 1, ncols);
  }

  lemma RaisedOrigin(m: nat, kind: Bits, ncols: nat, rows: nat, y: nat, lo: nat, x: nat)
    requires ncols > 0 && rows == m / ncols && y < rows && lo == y * ncols && lo + ncols <= m && x < ncols
    requires kind != LL && kind != UR && kind != LR && kind & UL != 0
    ensures Origin(kind, ncols, m, m - lo - ncols + x) == lo + x
  {
    var q := (m - lo - ncols + x) - (m - rows * ncols);
    RowFromEnd(ncols, rows, y, x);
    assert q == Cell(ncols, rows - 1 - y, x);
    CellSplit(ncols, rows - 1 - y, x);
    assert q / ncols == rows - 1 - y && q % ncols == x;
  }

  lemma RaisedRest<T>(prev: seq<T>, chan: seq<T>, kind: Bits, ncols: nat)
    requires ncols > 0 && |prev| == |chan|
    requires kind != LL && kind != UR && kind != LR && kind & UL != 0
    ensures 0 <= |chan| / ncols * ncols <= |chan|
    ensures forall p :: 0 <= p < |chan| - |chan| / ncols * ncols ==>
              Unscrambled(prev, chan, kind, ncols)[p] == prev[p]
  {
    assert |chan| / ncols * ncols >= 0;
  }

  /** Left upper amplifiers: rows are stored from the last one down; pixels before the first whole row stay. */
  method CopyRaisedRows<T>(raw: array<T>, namps: nat, i: nat, im: array<T>, base: nat, m: nat, kind: Bits, ncols: nat)
    requires raw != im && i < namps && m * namps <= raw.Length && base + m <= im.Length && ncols > 0
    requires kind != LL && kind != UR && kind != LR && kind & UL != 0
    modifies im
    ensures im[..] == Splice(old(im[..]), base,
                             Unscrambled(old(im[base..base + m]), Channel(raw[..], namps, i, m), kind, ncols))
  {
    hide Unscrambled, Splice, Strided, Channel, Reversed;
    ghost var was, prev, chan := im[..], im[base..base + m], Channel(raw[..], namps, i, m);
    ghost var target := Unscrambled(prev, chan, kind, ncols);
    var chunkrows, ptr, y := m / ncols, i, 0;
    SpliceNothing(was, base + m);
    assert target[m..] == [];
    ghost var lo := 0;
    while y < chunkrows
      invariant 0 <= y <= chunkrows && 0 <= lo == y * ncols <= m
      invariant ptr == i + lo * namps
      invariant im[..] == Splice(was, base + (m - lo), target[m - lo..])
    {
      RowsBelow(m, ncols, y);
      RaisedRow(prev, chan, kind, ncols, y, lo);
      SpliceBack(was, base, target, m - lo, ncols);
      ptr := CopyRun(raw, namps, i, m, lo, ptr, im, base + m - (y + 1) * ncols, ncols);
      y, lo := y + 1, lo + ncols;
    }
    RaisedRest(prev, chan, kind, ncols);
    assert target[m - lo..m] == target[m - lo..];
    SplicePart(was, base, target, m - lo, m);
  }

  /** One pass of the outer loop of GU_SHORT, before any rotation. */
  method UnscrambleAmp<T>(raw: array<T>, namps: nat, i: nat, im: array<T>, base: nat, m: nat, kind: Bits, ncols: nat)
    requires raw != im && i < namps && m * namps <= raw.Length && base + m <= im.Length && ncols > 0
    modifies im
    ensures im[..] == Splice(old(im[..]), base,
                             Unscrambled(old(im[base..base + m]), Channel(raw[..], namps, i, m), kind, ncols))
  {
    ghost var was, chan := im[..], Channel(raw[..], namps, i, m);
    ghost var target := Unscrambled(im[base..base + m], chan, kind, ncols);
    ChannelInside(namps, i, m, raw.Length);
    if kind == LL {
      var _ := CopyForward(raw, i, namps, im, base, m);
      assert target == chan;
    } else if kind == UR {
      var _ := CopyBackward(raw, i, namps, im, base, m);
      assert target == Reversed(chan);
    } else if kind == LR {
      CopyMirroredRows(raw, namps, i, im, base, m, ncols);
    } else if kind & UL != 0 {
      CopyRaisedRows(raw, namps, i, im, base, m, kind, ncols);
    } else {
      SplicePart(was, base, target, 0, 0);
      SpliceNothing(was, base);
    }
  }

  // ---- the whole call ----

  /** Read channel i goes to buffer block physMap[i], and the amplifiers there have pixels to hold. */
  ghost predicate WellMapped(amps: seq<Amp>, physMap: seq<int>) {
    && |amps| == |physMap|
    && (forall i :: 0 <= i < |physMap| ==> 0 <= physMap[i] < |amps|)
    && (forall a :: 0 <= a < |amps| ==> amps[a].Ncols() > 0)
  }

  /**
   * Which of the angles the amplifier table stores the formula can turn a block by. The table keeps
   * the sign of the request, so a request of -270 degrees is stored as it is.
   */
  lemma StoredAngleTurnsIff(rotate: int, ncols: nat, nrows: nat)
    requires ncols > 0 && nrows > 0
    ensures StoredAngle(rotate) == 0 || QuarterTurn(StoredAngle(rotate))
    ensures StoredAngle(rotate) != 0 ==>
              (PermutesPixels(ncols, nrows, StoredAngle(rotate)) <==>
               Remainder(rotate, 360) != -270 && EvenOrOne(ncols) && EvenOrOne(nrows))
    ensures StoredAngle(-270) == -270
  {
    if StoredAngle(rotate) != 0 {
      FormulaPermutesIff(ncols, nrows, StoredAngle(rotate));
    }
  }

  /** The map gives each of n amplifiers a read channel of its own; chan is the map read backwards. */
  ghost predicate OneToOne(physMap: seq<int>, chan: seq<nat>, n: nat) {
    && |physMap| == |chan| == n
    && (forall i :: 0 <= i < n ==> 0 <= physMap[i] < n && chan[physMap[i]] == i)
    && (forall a :: 0 <= a < n ==> chan[a] < n && physMap[chan[a]] == a)
  }

  /** No amplifier is stored with an angle for which the formula leaves the block. */
  ghost predicate StaysInBlocks(amps: seq<Amp>) {
    forall a :: 0 <= a < |amps| && amps[a].rotate != 0 ==> StaysInside(amps[a].rotate)
  }

  lemma BlockInside(n: nat, m: nat, a: int)
    requires 0 <= a < n
    ensures 0 <= a * m && a * m + m <= n * m
  {
    MulMonotone(a + 1, n, m);
    assert a * m >= 0;
  }

  lemma BlocksApart(m: nat, a: nat, b: nat)
    requires a != b
    ensures a * m + m <= b * m || b * m + m <= a * m
  {
    if a < b {
      MulMonotone(a + 1, b, m);
    } else {
      MulMonotone(b + 1, a, m);
    }
  }

  /** What the copy of the i-th call of the rotation was made with, if there was one. */
  function JunkOf<T>(junk: seq<seq<T>>, i: nat): seq<T> {
    if i < |junk| then junk[i] else []
  }

  /**
   * The image buffer after the first i read channels have been placed; junk[k] is what the copy was made with
   * that channel k was turned in.
   */
  function ImageAfter<T>(im: seq<T>, raw: seq<T>, amps: seq<Amp>, physMap: seq<int>, m: nat, i: nat,
                         junk: seq<seq<T>>): (s: seq<T>)
    requires WellMapped(amps, physMap) && i <= |amps|
    requires m * |amps| <= |raw| && |amps| * m <= |im|
    ensures |s| == |im|
  {
    if i == 0 then im
    else
      var before := ImageAfter(im, raw, amps, physMap, m, i - 1, junk);
      var a := physMap[i - 1];
      BlockInside(|amps|, m, a);
      Splice(before, a * m,
             Block(before[a * m..a * m + m], Channel(raw, |amps|, i - 1, m), amps[a], JunkOf(junk, i - 1)))
  }

  lemma MappedAmp(amps: seq<Amp>, physMap: seq<int>, i: nat)
    requires WellMapped(amps, physMap) && StaysInBlocks(amps) && i < |amps|
    ensures i < |physMap| && 0 <= physMap[i] < |amps|
    ensures var amp := amps[physMap[i]];
            amp.Ncols() > 0 && (amp.rotate != 0 ==> StaysInside(amp.rotate))
  {
  }

  lemma ImageBefore<T>(im: seq<T>, raw: seq<T>, amps: seq<Amp>, physMap: seq<int>, m: nat, junk: seq<seq<T>>)
    requires WellMapped(amps, physMap) && m * |amps| <= |raw| && |amps| * m <= |im|
    ensures ImageAfter(im, raw, amps, physMap, m, 0, junk) == im
  {
  }

  /** One more channel is one more block. */
  lemma ImageStep<T>(im: seq<T>, raw: seq<T>, amps: seq<Amp>, physMap: seq<int>, m: nat, i: nat, base: nat,
                     junk: seq<seq<T>>, more: seq<T>)
    requires WellMapped(amps, physMap) && i < |amps| && m * |amps| <= |raw| && |amps| * m <= |im|
    requires base == physMap[i] * m && |junk| == i
    ensures base + m <= |im| && amps[physMap[i]].Ncols() > 0
    ensures var before := ImageAfter(im, raw, amps, physMap, m, i, junk);
            ImageAfter(im, raw, amps, physMap, m, i + 1, junk + [more])
            == Splice(before, base, Block(before[base..base + m], Channel(raw, |amps|, i, m), amps[physMap[i]], more))
  {
    hide Block, Splice, Channel;
    BlockInside(|amps|, m, physMap[i]);
    SameJunk(im, raw, amps, physMap, m, i, junk, junk + [more]);
  }

  /** Only the copies made so far matter. */
  lemma {:induction false} SameJunk<T>(im: seq<T>, raw: seq<T>, amps: seq<Amp>, physMap: seq<int>, m: nat, i: nat,
                                      junk: seq<seq<T>>, junk': seq<seq<T>>)
    requires WellMapped(amps, physMap) && i <= |amps| && m * |amps| <= |raw| && |amps| * m <= |im|
    requires forall k :: 0 <= k < i && amps[physMap[k]].rotate != 0 ==> JunkOf(junk, k) == JunkOf(junk', k)
    ensures ImageAfter(im, raw, amps, physMap, m, i, junk) == ImageAfter(im, raw, amps, physMap, m, i, junk')
  {
    hide Splice, Channel, Unscrambled, Scattered, JunkOf, Block;
    if i > 0 {
      SameJunk(im, raw, amps, physMap, m, i - 1, junk, junk');
      BlockInside(|amps|, m, physMap[i - 1]);
      var before := ImageAfter(im, raw, amps, physMap, m, i - 1, junk);
      var at := physMap[i - 1] * m;
      SameBlock(before[at..at + m], Channel(raw, |amps|, i - 1, m), amps[physMap[i - 1]], JunkOf(junk, i - 1),
                JunkOf(junk', i - 1));
    }
  }

  lemma SameBlock<T>(prev: seq<T>, chan: seq<T>, amp: Amp, junk: seq<T>, junk': seq<T>)
    requires amp.Ncols() > 0 && |prev| == |chan| && (amp.rotate != 0 ==> junk == junk')
    ensures Block(prev, chan, amp, junk) == Block(prev, chan, amp, junk')
  {
  }

  /** Unscrambles nelems raw pixels; dataptr[a] is where amplifier a's block starts. */
  method UnscrambleImage<T(0)>(table: AmpTable, raw: array<T>, im: array<T>, nelems: nat)
      returns (dataptr: seq<nat>, ghost junk: seq<seq<T>>)
    requires raw != im && table.Valid() && |table.amps| > 0
    requires WellMapped(table.amps, table.physMap) && StaysInBlocks(table.amps)
    requires nelems <= raw.Length && nelems <= im.Length
    modifies im
    ensures var n, m := |table.amps|, PerBlock(nelems, |table.amps|);
            && m * n <= raw.Length && n * m <= im.Length
            && im[..] == ImageAfter(old(im[..]), raw[..], table.amps, table.physMap, m, n, junk)
            && dataptr == seq(n, a requires a >= 0 => var p: nat := Start(a, m); p)
  {
    hide Block, Splice, Channel, Turned, ImageAfter, WellMapped, StaysInBlocks, Start, PerBlock;
    var n := |table.amps|;
    var m := PerBlock(nelems, n);
    junk := [];
    ImageBefore(im[..], raw[..], table.amps, table.physMap, m, junk);
    dataptr := seq(n, a requires a >= 0 => var p: nat := Start(a, m); p);
    var i := 0;
    while i < n
      invariant 0 <= i <= n && |junk| == i
      invariant im[..] == ImageAfter(old(im[..]), raw[..], table.amps, table.physMap, m, i, junk)
    {
      var a := table.physMap[i];
      MappedAmp(table.amps, table.physMap, i);
      BlockInside(n, m, a);
      ghost var more := PlaceChannel(raw, n, i, im, a * m, m, table.amps[a]);
      ImageStep(old(im[..]), raw[..], table.amps, table.physMap, m, i, a * m, junk, more);
      i, junk := i + 1, junk + [more];
    }
  }

  function Start(a: nat, m: nat): nat {
    a * m
  }

  /** One pass of the loop over channels: unscramble, then rotate in place. */
  method PlaceChannel<T(0)>(raw: array<T>, namps: nat, i: nat, im: array<T>, base: nat, m: nat, amp: Amp)
      returns (ghost junk: seq<T>)
    requires raw != im && i < namps && m * namps <= raw.Length && base + m <= im.Length && amp.Ncols() > 0
    requires amp.rotate != 0 ==> StaysInside(amp.rotate)
    modifies im
    ensures im[..] == Splice(old(im[..]), base,
                             Block(old(im[base..base + m]), Channel(raw[..], namps, i, m), amp, junk))
  {
    hide Unscrambled, Splice, Channel, Scattered, StaysInside, PerBlock;
    ghost var was, chan := im[..], Channel(raw[..], namps, i, m);
    ghost var u := Unscrambled(im[base..base + m], chan, amp.kind, amp.Ncols());
    junk := [];
    UnscrambleAmp(raw, namps, i, im, base, m, amp.kind, amp.Ncols());
    if amp.rotate != 0 {
      var chunkrows := PerBlock(m, amp.Ncols());
      ghost var used := amp.Ncols() * chunkrows;
      SpliceOver(was, base, u, u[..used]);
      junk := RotateImage(im, base, amp.Ncols(), chunkrows, amp.rotate);
      SpliceOver(was, base, u, Scattered(u[..used], amp.Ncols(), chunkrows, amp.rotate, used, junk));
    }
  }

  /** With a one-to-one channel map every block ends up holding exactly its own channel's pixels. */
  lemma EveryBlockPlaced<T>(im: seq<T>, raw: seq<T>, amps: seq<Amp>, physMap: seq<int>, m: nat, n: nat, i: nat, at: nat,
                            junk: seq<seq<T>>)
    requires WellMapped(amps, physMap) && i < n <= |amps| && at == physMap[i] * m
    requires m * |amps| <= |raw| && |amps| * m <= |im|
    requires forall j, k :: 0 <= j < k < |physMap| ==> physMap[j] != physMap[k]
    ensures at + m <= |im|
    ensures ImageAfter(im, raw, amps, physMap, m, n, junk)[at..at + m]
         == Block(im[at..at + m], Channel(raw, |amps|, i, m), amps[physMap[i]], JunkOf(junk, i))
  {
    hide Block, Splice, Channel, JunkOf;
    var a, b := physMap[i], physMap[n - 1];
    BlockInside(|amps|, m, a);
    BlockInside(|amps|, m, b);
    var before := ImageAfter(im, raw, amps, physMap, m, n - 1, junk);
    var placed := Block(before[b * m..b * m + m], Channel(raw, |amps|, n - 1, m), amps[b], JunkOf(junk, n - 1));
    if i == n - 1 {
      BlockUntouched(im, raw, amps, physMap, m, n - 1, a, junk);
      SpliceHere(before, a * m, placed);
    } else {
      EveryBlockPlaced(im, raw, amps, physMap, m, n - 1, i, at, junk);
      BlocksApart(m, a, b);
      SpliceElsewhere(before, b * m, placed, at, m);
    }
  }

  lemma BlockUntouched<T>(im: seq<T>, raw: seq<T>, amps: seq<Amp>, physMap: seq<int>, m: nat, n: nat, a: nat,
                          junk: seq<seq<T>>)
    requires WellMapped(amps, physMap) && n <= |amps| && a < |amps|
    requires m * |amps| <= |raw| && |amps| * m <= |im|
    requires forall j :: 0 <= j < n ==> physMap[j] != a
    ensures 0 <= a * m && a * m + m <= |im|
    ensures ImageAfter(im, raw, amps, physMap, m, n, junk)[a * m..a * m + m] == im[a * m..a * m + m]
  {
    hide Block, Splice, Channel, JunkOf;
    BlockInside(|amps|, m, a);
    if n > 0 {
      var before := ImageAfter(im, raw, amps, physMap, m, n - 1, junk);
      var b := physMap[n - 1];
      BlockInside(|amps|, m, b);
      BlocksApart(m, a, b);
      BlockUntouched(im, raw, amps, physMap, m, n - 1, a, junk);
      var placed := Block(before[b * m..b * m + m], Channel(raw, |amps|, n - 1, m), amps[b], JunkOf(junk, n - 1));
      SpliceElsewhere(before, b * m, placed, a * m, m);
    }
  }
}
