/** Amplifier geometry: the table GU_add_amp fills, with flips and half turns folded into the type. */
module Amplifiers {
  import opened Grid

  // One bit per read-out corner; the combinations test for a side or a diagonal.
  type Bits = bv8

  const LL: Bits := 0x8
  const LR: Bits := 0x4
  const UL: Bits := 0x2
  const UR: Bits := 0x1
  const LOWER: Bits := 0xC
  const UPPER: Bits := 0x3
  const LEFT: Bits := 0xA
  const RIGHT: Bits := 0x5
  const DIAGR: Bits := 0x9
  const DIAGL: Bits := 0x6

  const NOFLIP := 0
  const FLIPVERT := 1
  const FLIPHORI := 2

  const MAX_AMPS := 128

  /** One entry of the amplifier table. Coordinates count from 1. */
  datatype Amp = Amp(
    xstart: int, ystart: int,
    precols: nat, datacols: nat, postcols: nat,
    prerows: nat, datarows: nat, postrows: nat, nrows: nat,
    xdetstart: int, ydetstart: int,
    kind: Bits, rotate: int, discard: int, detno: int, ampno: int)
  {
    function Ncols(): nat { precols + datacols + postcols }

    /** The rows are those of the three row sections. */
    predicate RowsAddUp() { nrows == prerows + datarows + postrows }
  }

  predicate OneHot(t: Bits) {
    t == LL || t == LR || t == UL || t == UR
  }

  predicate Lower(t: Bits) { t & LOWER != 0 }

  predicate Left(t: Bits) { t & LEFT != 0 }

  /** The remainder of C's div: truncated towards zero. */
  function Remainder(a: int, b: int): int
    requires b > 0
  {
    if a >= 0 then a % b else -((-a) % b)
  }

  /** The requested angle inside one turn; anything that is not a quarter turn is ignored. */
  function Angle(rotate: int): int {
    var r := Remainder(rotate, 360);
    if Remainder(r, 90) != 0 then 0 else r
  }

  predicate HalfTurn(rotate: int) {
    Angle(rotate) == 180 || Angle(rotate) == -180
  }

  /** Type codes 0..3 name the four corners; the shift leaves no bit for any other code. */
  function CornerBit(code: nat): Bits {
    if code < 4 then (8 as Bits) >> code else 0
  }

  function TurnedType(t: Bits): Bits {
    if t & DIAGR != 0 then !t & DIAGR else !t & DIAGL
  }

  function FlippedType(t: Bits, flip: int): Bits {
    if flip == FLIPVERT then
      if t & LOWER != 0 then !t & LOWER else !t & UPPER
    else if flip == FLIPHORI then
      if t & LEFT != 0 then !t & LEFT else !t & RIGHT
    else t
  }

  function StoredType(code: nat, rotate: int, flip: int): Bits {
    var t := CornerBit(code);
    FlippedType(if HalfTurn(rotate) then TurnedType(t) else t, flip)
  }

  function StoredAngle(rotate: int): int {
    if HalfTurn(rotate) then 0 else Angle(rotate)
  }

  /**
   * The stored angle and the half turn together are the requested angle, up to whole turns and with its sign;
   * what is no quarter turn is dropped, and the one angle rotation cannot use is a quarter turn asked for backwards.
   */
  lemma StoredAngleIsRequested(rotate: int)
    ensures HalfTurn(rotate) <==> rotate % 360 == 180
    ensures rotate % 90 != 0 ==> StoredAngle(rotate) == 0
    ensures rotate % 90 == 0 ==>
              (rotate - StoredAngle(rotate) - (if rotate % 360 == 180 then 180 else 0)) % 360 == 0
    ensures rotate >= 0 ==> 0 <= StoredAngle(rotate) < 360
    ensures rotate <= 0 ==> -360 < StoredAngle(rotate) <= 0
    ensures StoredAngle(rotate) == -270 <==> rotate < 0 && rotate % 360 == 90
  {
    hide Angle;
    AngleIsRequested(rotate);
    var r := rotate % 360;
    CellSplit(360, rotate / 360, 0);
    CellSplit(360, rotate / 360 + 1, 0);
    assert rotate - r == Cell(360, rotate / 360, 0);
    assert rotate - (r - 360) == Cell(360, rotate / 360 + 1, 0);
  }

  /** A quarter turn's angle inside one turn, with the sign of the request. */
  lemma AngleIsRequested(rotate: int)
    ensures rotate % 90 != 0 ==> Angle(rotate) == 0 && rotate % 360 != 180 && rotate % 360 != 90
    ensures rotate % 90 == 0 ==> rotate % 360 in {0, 90, 180, 270}
    ensures rotate % 90 == 0 ==>
              Angle(rotate) == if rotate >= 0 || rotate % 360 == 0 then rotate % 360 else rotate % 360 - 360
  {
    hide Angle;
    if rotate >= 0 {
      InOneTurn(rotate);
    } else {
      InOneTurn(-rotate);
      NegativeAngle(-rotate);
    }
  }

  lemma InOneTurn(n: nat)
    ensures n % 90 == n % 360 % 90
    ensures Angle(n) == if n % 90 != 0 then 0 else n % 360
    ensures (n - n % 360) % 360 == 0
    ensures n % 90 == 0 ==> n % 360 in {0, 90, 180, 270}
  {
    assert n == 90 * (4 * (n / 360)) + n % 360;
  }

  lemma NegativeAngle(n: int)
    requires n >= 0
    ensures n > 0 ==> Angle(-n) == -Angle(n)
    ensures -n % 90 == 0 <==> n % 90 == 0
    ensures -n % 360 == if n % 360 == 0 then 0 else 360 - n % 360
    ensures (-n + n % 360) % 360 == 0
  {
    assert n == 360 * (n / 360) + n % 360;
    NegativeRemainder(n / 360, n % 360);
    InOneTurn(n);
  }

  lemma NegativeRemainder(q: int, r: int)
    requires 0 <= r < 360
    ensures (-(360 * q + r)) % 360 == if r == 0 then 0 else 360 - r
    ensures (-(360 * q + r)) % 90 == 0 <==> r % 90 == 0
  {
    var n, s := -(360 * q + r), r % 90;
    assert r == 90 * (r / 90) + s;
    if r == 0 {
      CellSplit(360, -q, 0);
      CellSplit(90, -4 * q, 0);
      assert n == Cell(360, -q, 0) == Cell(90, -4 * q, 0);
    } else {
      CellSplit(360, -q - 1, 360 - r);
      assert n == Cell(360, -q - 1, 360 - r);
      if s == 0 {
        CellSplit(90, -4 * q - r / 90, 0);
        assert n == Cell(90, -4 * q - r / 90, 0);
      } else {
        CellSplit(90, -4 * q - r / 90 - 1, 90 - s);
        assert n == Cell(90, -4 * q - r / 90 - 1, 90 - s);
      }
    }
  }

  /** Half turns and flips become changes of corner: which side is read first is a parity. */
  lemma StoredTypeIsACorner(code: nat, rotate: int, flip: int)
    requires code < 4
    ensures var t := StoredType(code, rotate, flip);
            && OneHot(t)
            && (Lower(t) <==> ((code < 2) != (HalfTurn(rotate) != (flip == FLIPHORI))))
            && (Left(t) <==> ((code % 2 == 0) != (HalfTurn(rotate) != (flip == FLIPVERT))))
    ensures StoredAngle(rotate) in {0, 90, 270, -90, -270}
  {
    assert CornerBit(code) == if code == 0 then LL else if code == 1 then LR else if code == 2 then UL else UR;
  }

  /** Codes above 3 have no corner bit, and only a half turn together with a flip makes one. */
  lemma StoredTypeOneHotIff(code: nat, rotate: int, flip: int)
    ensures OneHot(StoredType(code, rotate, flip))
            <==> code < 4 || (HalfTurn(rotate) && flip in {FLIPVERT, FLIPHORI})
  {
    if code < 4 {
      StoredTypeIsACorner(code, rotate, flip);
    }
  }

  /** What is stored for a code without a corner bit: the masks of the flips and the turn themselves. */
  lemma OtherCodes(code: nat, rotate: int, flip: int)
    requires code >= 4
    ensures StoredType(code, rotate, flip)
         == if HalfTurn(rotate) then (if flip == 1 || flip == 2 then 0x8 else 0x6)
            else if flip == 1 then 0x3 else if flip == 2 then 0x5 else 0x0
  {
  }

  /** The tables GU_add_amp extends: amplifiers, and the buffer position of each read channel. */
  class AmpTable {
    var amps: seq<Amp>
    var physMap: seq<int>

    ghost predicate Valid()
      reads this
    {
      && |amps| == |physMap| <= MAX_AMPS
      && forall a :: a in amps ==> a.rotate in {0, 90, 270, -90, -270} && a.RowsAddUp()
    }

    constructor ()
      ensures Valid() && amps == [] && physMap == []
    {
      amps, physMap := [], [];
    }

    method AddAmp(xstart: int, precols: nat, datacols: nat, postcols: nat,
                  ystart: int, prerows: nat, datarows: nat, postrows: nat, xdetstart: int, ydetstart: int,
                  code: nat, rotate: int, flip: int, extension: int, detno: int, ampno: int, discard: int)
      requires Valid() && |amps| < MAX_AMPS
      modifies this
      ensures Valid()
      ensures |amps| == |old(amps)| + 1 && amps[..|amps| - 1] == old(amps)
      ensures amps[|amps| - 1]
           == Amp(xstart, ystart, precols, datacols, postcols, prerows, datarows, postrows,
                  prerows + datarows + postrows, xdetstart, ydetstart,
                  StoredType(code, rotate, flip), StoredAngle(rotate), discard, detno, ampno)
      ensures physMap == old(physMap) + [extension]
    {
      var kind := CornerBit(code);
      var angle := Remainder(rotate, 360);
      if Remainder(angle, 90) != 0 {
        angle := 0;
      }
      if angle == 180 || angle == -180 {
        angle := 0;
        if kind & DIAGR != 0 {
          kind := !kind & DIAGR;
        } else {
          kind := !kind & DIAGL;
        }
      }
      if flip == FLIPVERT {
        if kind & LOWER != 0 {
          kind := !kind & LOWER;
        } else {
          kind := !kind & UPPER;
        }
      } else if flip == FLIPHORI {
        if kind & LEFT != 0 {
          kind := !kind & LEFT;
        } else {
          kind := !kind & RIGHT;
        }
      }
      var nrows := prerows + datarows + postrows;
      amps := amps + [Amp(xstart, ystart, precols, datacols, postcols, prerows, datarows, postrows, nrows,
                          xdetstart, ydetstart, kind, angle, discard, detno, ampno)];
      physMap := physMap + [extension];
    }
  }
}
