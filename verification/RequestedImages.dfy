/** What a caller of GU_add_amp gets: the extension shows the plain image mirrored and turned as requested. */
module RequestedImages {
  import opened Grid
  import opened Amplifiers
  import opened Orientation
  import opened Rotation
  import opened Extensions
  import opened ExtensionFrames

  /** q quarter turns of an ncols by nrows image, each on the block the one before has transposed. */
  function QuarterTurns<T>(s: seq<T>, ncols: nat, nrows: nat, q: nat): (r: seq<T>)
    requires |s| == ncols * nrows
    ensures |r| == |s|
    decreases q
  {
    if q == 0 then s else QuarterTurns(Turned(s, ncols, nrows, 90), nrows, ncols, q - 1)
  }

  /** The flips by their codes: 1 exchanges left and right, 2 exchanges top and bottom. */
  function Mirrored<T>(s: seq<T>, ncols: nat, nrows: nat, flip: int): (r: seq<T>)
    requires |s| == ncols * nrows
    ensures |r| == |s|
  {
    if flip == 1 then MirrorCols(s, ncols, nrows)
    else if flip == 2 then MirrorRows(s, ncols, nrows)
    else s
  }

  /** Quarter turns in a requested angle; other angles ask for none. */
  function TurnsIn(rotate: int): (q: nat)
    ensures q < 4
  {
    if rotate % 90 == 0 then rotate % 360 / 90 else 0
  }

  lemma MirroredIsRequested<T>(s: seq<T>, ncols: nat, nrows: nat, flip: int)
    requires |s| == ncols * nrows
    ensures Mirrored(s, ncols, nrows, flip) == Requested(s, ncols, nrows, 0, flip)
  {
    hide MirrorCols, MirrorRows;
    StoredAngleIsRequested(0);
  }

  /** A half turn before the mirror is two quarter turns after it. */
  lemma HalfTurnAfterMirror<T>(s: seq<T>, ncols: nat, nrows: nat, rotate: int, flip: int)
    requires |s| == ncols * nrows && rotate % 360 == 180
    ensures Requested(s, ncols, nrows, rotate, flip) == QuarterTurns(Mirrored(s, ncols, nrows, flip), ncols, nrows, 2)
  {
    hide Requested, Mirrored, Turned, HalfTurn;
    StoredAngleIsRequested(rotate);
    StoredAngleIsRequested(0);
    MirroredIsRequested(s, ncols, nrows, flip);
    var m := Mirrored(s, ncols, nrows, flip);
    var lhs, rhs := Requested(s, ncols, nrows, rotate, flip), Turned(Turned(m, ncols, nrows, 90), nrows, ncols, 90);
    TwoQuarters(m, ncols, nrows);
    forall p | 0 <= p < |s|
      ensures lhs[p] == rhs[p]
    {
      CellJoin(ncols, nrows, p);
      var y, x := p / ncols, p % ncols;
      TwoTurnsReverse(m, ncols, nrows, p);
      MirrorCell(ncols, nrows, y, x);
      MirrorCell(ncols, nrows, nrows - 1 - y, ncols - 1 - x);
      RequestedAt(s, ncols, nrows, rotate, flip, y, x);
      RequestedAt(s, ncols, nrows, 0, flip, nrows - 1 - y, ncols - 1 - x);
    }
  }

  lemma TwoQuarters<T>(s: seq<T>, ncols: nat, nrows: nat)
    requires |s| == ncols * nrows
    ensures QuarterTurns(s, ncols, nrows, 2) == Turned(Turned(s, ncols, nrows, 90), nrows, ncols, 90)
  {
    hide Turned;
    assert QuarterTurns(Turned(s, ncols, nrows, 90), nrows, ncols, 1)
        == QuarterTurns(Turned(Turned(s, ncols, nrows, 90), nrows, ncols, 90), ncols, nrows, 0);
  }

  /** Turning the other way, under either name, is three quarter turns. */
  lemma ThreeQuarters<T>(s: seq<T>, ncols: nat, nrows: nat, rotation: int)
    requires |s| == ncols * nrows && rotation in {270, -90}
    ensures Turned(s, ncols, nrows, rotation) == QuarterTurns(s, ncols, nrows, 3)
  {
    OtherWay(s, ncols, nrows, rotation);
    hide Turned;
    var half := Turned(Turned(s, ncols, nrows, 90), nrows, ncols, 90);
    var n := Turned(half, ncols, nrows, 90);
    FourTurns(s, ncols, nrows);
    TurnBack(n, nrows, ncols);
    TwoQuarters(Turned(s, ncols, nrows, 90), nrows, ncols);
    assert QuarterTurns(s, ncols, nrows, 3) == n;
  }

  lemma OtherWay<T>(s: seq<T>, ncols: nat, nrows: nat, rotation: int)
    requires |s| == ncols * nrows && rotation in {270, -90}
    ensures Turned(s, ncols, nrows, rotation) == Turned(s, ncols, nrows, 270)
  {
  }

  /**
   * The request is met: an amplifier stored for a type code, an angle and a flip shows the plain image of its
   * corner, mirrored as asked and turned by as many quarter turns as asked. -270 is the angle rotation cannot use.
   */
  lemma WholeImageIsRequested<T>(amp: Amp, chan: seq<T>, code: nat, rotate: int, flip: int)
    requires code < 4 && amp.kind == StoredType(code, rotate, flip) && amp.rotate == StoredAngle(rotate)
    requires amp.Ncols() > 0 && amp.nrows > 0 && |chan| == amp.Ncols() * amp.nrows
    requires !(rotate < 0 && rotate % 360 == 90)
    ensures Regular(amp)
    ensures var plain := Unscrambled(chan, chan, CornerBit(code), amp.Ncols());
            var mirrored := Mirrored(plain, amp.Ncols(), amp.nrows, flip);
            WholeImage(amp, chan) == QuarterTurns(mirrored, amp.Ncols(), amp.nrows, TurnsIn(rotate))
  {
    hide Unscrambled, Requested, Mirrored, Turned, HalfTurn, StoredAngle, StoredType, CornerBit;
    var ncols, nrows := amp.Ncols(), amp.nrows;
    var plain := Unscrambled(chan, chan, CornerBit(code), ncols);
    StoredAngleIsRequested(rotate);
    StoredAngleIsRequested(0);
    StoredTypeIsACorner(code, rotate, flip);
    FlipEliminationIsSound(chan, chan, ncols, nrows, code, rotate, flip);
    MirroredIsRequested(plain, ncols, nrows, flip);
    if rotate % 360 == 180 {
      HalfTurnAfterMirror(plain, ncols, nrows, rotate, flip);
    } else {
      SameRequest(plain, ncols, nrows, rotate, flip);
      if rotate % 360 == 90 {
        OneQuarter(Mirrored(plain, ncols, nrows, flip), ncols, nrows);
      } else if rotate % 360 == 270 {
        ThreeQuarters(Mirrored(plain, ncols, nrows, flip), ncols, nrows, amp.rotate);
      }
    }
  }

  lemma OneQuarter<T>(s: seq<T>, ncols: nat, nrows: nat)
    requires |s| == ncols * nrows
    ensures QuarterTurns(s, ncols, nrows, 1) == Turned(s, ncols, nrows, 90)
  {
    hide Turned;
    assert QuarterTurns(Turned(s, ncols, nrows, 90), nrows, ncols, 0) == Turned(s, ncols, nrows, 90);
  }

  /** Without a half turn only the flip is left in the request. */
  lemma SameRequest<T>(s: seq<T>, ncols: nat, nrows: nat, rotate: int, flip: int)
    requires |s| == ncols * nrows && rotate % 360 != 180
    ensures Requested(s, ncols, nrows, rotate, flip) == Requested(s, ncols, nrows, 0, flip)
  {
    hide MirrorCols, MirrorRows, HalfTurn;
    StoredAngleIsRequested(rotate);
    StoredAngleIsRequested(0);
  }

  /** A frame split into chunks that turn exactly ends as the image the caller asked for. */
  lemma FrameShowsRequest<T>(es: seq<Ext<T>>, rig: Rig, raw: seq<T>, im: seq<T>, calls: seq<Call<T>>, a: nat,
                             code: nat, rotate: int, flip: int)
    requires CanRun(es, rig, raw, im, calls, 0) && a < rig.N() && rig.amps[a].discard <= 0
    requires InExtension(es[a], rig.amps[a], ChannelOf(rig, raw, a), 0)
    requires CallsTurn(rig.amps[a], calls)
    requires code < 4 && rig.amps[a].kind == StoredType(code, rotate, flip) && rig.amps[a].rotate == StoredAngle(rotate)
    ensures |RunFrame(es, rig, raw, im, calls, 0)| == rig.N()
    ensures |ChannelOf(rig, raw, a)| == rig.ncols * rig.nrows
    ensures var plain := Unscrambled(ChannelOf(rig, raw, a), ChannelOf(rig, raw, a), CornerBit(code), rig.ncols);
            RunFrame(es, rig, raw, im, calls, 0)[a].ext
            == QuarterTurns(Mirrored(plain, rig.ncols, rig.nrows, flip), rig.ncols, rig.nrows, TurnsIn(rotate))
  {
    hide RunFrame, CanRun, InExtension, CallsTurn, WholeImage, ChannelOf, StoredType, StoredAngle, Unscrambled,
         Mirrored, QuarterTurns, TurnsIn, CornerBit;
    FrameLands(es, rig, raw, im, calls, 0, a);
    JunkSizes(es, rig, raw, im, calls, 0, a);
    RigAmp(es, rig, raw, im, calls, a);
    StoredAngleIsRequested(rotate);
    WholeImageIsRequested(rig.amps[a], ChannelOf(rig, raw, a), code, rotate, flip);
  }

  lemma RigAmp<T>(es: seq<Ext<T>>, rig: Rig, raw: seq<T>, im: seq<T>, calls: seq<Call<T>>, a: nat)
    requires CanRun(es, rig, raw, im, calls, 0) && a < rig.N()
    ensures rig.Valid() && rig.amps[a].Ncols() == rig.ncols > 0 && rig.amps[a].nrows == rig.nrows > 0
    ensures Regular(rig.amps[a])
  {
  }
}
