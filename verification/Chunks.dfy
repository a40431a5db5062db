/** Handing out a growing buffer piece by piece: return_data_pointer and return_data_pointer2. */
module Chunks {
  import opened Grid

  /** A piece of the buffer, in bytes; NoPiece is the null pointer. */
  datatype Piece = NoPiece | Piece(pos: int, bytes: int)

  /** Buffers of dbuf bytes a capture of cbuff bytes needs. */
  function TotalBuffers(cbuff: nat, dbuf: nat): nat
    requires dbuf > 0
  {
    (cbuff + dbuf - 1) / dbuf
  }

  /** return_data_pointer: the piece of buffer number bufRead. */
  function DataPiece(bufRead: nat, cbuff: nat, dbuf: nat): Piece {
    if bufRead == 0 then NoPiece
    else
      var pos := (bufRead - 1) * dbuf;
      if cbuff - pos < 0 then NoPiece
      else Piece(pos, if cbuff - pos >= dbuf then dbuf else cbuff - pos)
  }

  /** return_data_pointer2: everything since the last call; the second result is the new position. */
  function NextPiece(oldpos: nat, bufRead: nat, cbuff: nat, dbuf: nat, totbufs: nat): (r: (Piece, nat)) {
    if bufRead == 0 || cbuff - oldpos < 0 then (NoPiece, oldpos)
    else
      var newpos := bufRead * dbuf;
      var remain := cbuff - oldpos;
      MulMonotone(0, bufRead, dbuf);
      (Piece(oldpos, if remain < dbuf || bufRead == totbufs then remain else newpos - oldpos), newpos)
  }

  class PieceServer {
    var oldpos: nat

    constructor ()
      ensures oldpos == 0
    {
      oldpos := 0;
    }

    method ClearOldpos()
      modifies this
      ensures oldpos == 0
    {
      oldpos := 0;
    }

    method ReturnDataPointer2(bufRead: nat, cbuff: nat, dbuf: nat, totbufs: nat) returns (piece: Piece)
      modifies this
      ensures (piece, oldpos) == NextPiece(old(oldpos), bufRead, cbuff, dbuf, totbufs)
    {
      if bufRead == 0 {
        return NoPiece;
      }
      var newpos := bufRead * dbuf;
      var bytesRemain := cbuff - oldpos;
      if bytesRemain < 0 {
        return NoPiece;
      }
      var bytesToWrite;
      if bytesRemain < dbuf || bufRead == totbufs {
        bytesToWrite := bytesRemain;
      } else {
        bytesToWrite := newpos - oldpos;
      }
      piece := Piece(oldpos, bytesToWrite);
      MulMonotone(0, bufRead, dbuf);
      oldpos := newpos;
    }
  }

  /** The pieces successive calls return. */
  function Serve(oldpos: nat, polls: seq<nat>, cbuff: nat, dbuf: nat, totbufs: nat): (r: seq<Piece>)
    ensures |r| == |polls|
    decreases |polls|
  {
    if polls == [] then []
    else
      var (piece, pos) := NextPiece(oldpos, polls[0], cbuff, dbuf, totbufs);
      [piece] + Serve(pos, polls[1..], cbuff, dbuf, totbufs)
  }

  /** Non-empty pieces that follow each other from `from` to `to`, with no gap and no overlap. */
  ghost predicate Tiles(pieces: seq<Piece>, from: int, to: int)
    decreases |pieces|
  {
    if pieces == [] then from == to
    else
      && pieces[0].Piece? && pieces[0].pos == from && pieces[0].bytes > 0
      && Tiles(pieces[1..], from + pieces[0].bytes, to)
  }

  ghost predicate Increasing(last: nat, polls: seq<nat>, max: nat)
    decreases |polls|
  {
    polls == [] || (last < polls[0] <= max && Increasing(polls[0], polls[1..], max))
  }

  /** How far the capture has been handed out once buffer b has been announced. */
  function Reached(b: nat, cbuff: nat, dbuf: nat): (n: nat)
    ensures n <= cbuff
  {
    MulMonotone(0, b, dbuf);
    if b * dbuf <= cbuff then b * dbuf else cbuff
  }

  function LastOf(last: nat, polls: seq<nat>): nat {
    if polls == [] then last else polls[|polls| - 1]
  }

  lemma BufferBounds(b: nat, cbuff: nat, dbuf: nat)
    requires dbuf > 0
    ensures 0 <= b * dbuf
    ensures b < TotalBuffers(cbuff, dbuf) ==> b * dbuf < cbuff
    ensures b + 1 < TotalBuffers(cbuff, dbuf) ==> cbuff - b * dbuf >= dbuf
    ensures b >= TotalBuffers(cbuff, dbuf) ==> b * dbuf >= cbuff
  {
    var t := TotalBuffers(cbuff, dbuf);
    MulMonotone(0, b, dbuf);
    assert t * dbuf <= cbuff + dbuf - 1 && cbuff <= t * dbuf;
    if b < t {
      MulMonotone(b + 1, t, dbuf);
      MulSplit(b, 1, dbuf);
      if b + 1 < t {
        MulMonotone(b + 2, t, dbuf);
        MulSplit(b, 2, dbuf);
      }
    } else {
      MulMonotone(t, b, dbuf);
    }
  }

  /** Whichever buffers were announced, the pieces tile what has been announced so far. */
  lemma {:induction false} PiecesTile(last: nat, polls: seq<nat>, cbuff: nat, dbuf: nat)
    requires dbuf > 0 && Increasing(last, polls, TotalBuffers(cbuff, dbuf)) && last <= TotalBuffers(cbuff, dbuf)
    ensures last * dbuf >= 0
    ensures Tiles(Serve(last * dbuf, polls, cbuff, dbuf, TotalBuffers(cbuff, dbuf)),
                  Reached(last, cbuff, dbuf), Reached(LastOf(last, polls), cbuff, dbuf))
    decreases |polls|
  {
    hide TotalBuffers;
    BufferBounds(last, cbuff, dbuf);
    if polls != [] {
      var b := polls[0];
      BufferBounds(b, cbuff, dbuf);
      MulMonotone(last + 1, b, dbuf);
      MulSplit(last, 1, dbuf);
      PiecesTile(b, polls[1..], cbuff, dbuf);
      assert LastOf(b, polls[1..]) == LastOf(last, polls);
      var rest := Serve(b * dbuf, polls[1..], cbuff, dbuf, TotalBuffers(cbuff, dbuf));
      var all := Serve(last * dbuf, polls, cbuff, dbuf, TotalBuffers(cbuff, dbuf));
      assert all[1..] == rest;
    }
  }

  /** A capture whose last buffer has been announced has been handed out from its first byte to its last. */
  lemma CaptureIsTiled(polls: seq<nat>, cbuff: nat, dbuf: nat)
    requires dbuf > 0 && cbuff > 0 && polls != []
    requires Increasing(0, polls, TotalBuffers(cbuff, dbuf)) && polls[|polls| - 1] == TotalBuffers(cbuff, dbuf)
    ensures Tiles(Serve(0, polls, cbuff, dbuf, TotalBuffers(cbuff, dbuf)), 0, cbuff)
  {
    PiecesTile(0, polls, cbuff, dbuf);
    BufferBounds(TotalBuffers(cbuff, dbuf), cbuff, dbuf);
  }

  /** When no buffer is missed both functions return the same piece. */
  lemma PiecesAgree(b: nat, cbuff: nat, dbuf: nat)
    requires dbuf > 0 && b < TotalBuffers(cbuff, dbuf)
    ensures b * dbuf >= 0
    ensures NextPiece(b * dbuf, b + 1, cbuff, dbuf, TotalBuffers(cbuff, dbuf)).0 == DataPiece(b + 1, cbuff, dbuf)
  {
    BufferBounds(b, cbuff, dbuf);
    BufferBounds(b + 1, cbuff, dbuf);
    MulSplit(b, 1, dbuf);
  }

  /** Outside the capture: nothing before the first buffer and nothing beyond the last byte. */
  lemma PiecesOutside(b: nat, oldpos: nat, cbuff: nat, dbuf: nat, totbufs: nat)
    requires dbuf > 0
    ensures DataPiece(0, cbuff, dbuf) == NoPiece
    ensures b * dbuf == cbuff ==> DataPiece(b + 1, cbuff, dbuf) == Piece(cbuff, 0)
    ensures b * dbuf > cbuff ==> DataPiece(b + 1, cbuff, dbuf) == NoPiece
    ensures NextPiece(oldpos, 0, cbuff, dbuf, totbufs) == (NoPiece, oldpos)
    ensures oldpos > cbuff ==> NextPiece(oldpos, b, cbuff, dbuf, totbufs) == (NoPiece, oldpos)
    ensures b > 0 && oldpos <= cbuff ==>
              var (piece, pos) := NextPiece(oldpos, b, cbuff, dbuf, totbufs);
              piece.Piece? && piece.pos == oldpos && pos == b * dbuf
              && (cbuff < oldpos + dbuf || b == totbufs ==> oldpos + piece.bytes == cbuff)
              && (oldpos + dbuf <= cbuff && b != totbufs ==> oldpos + piece.bytes == pos)
  {
  }
}
