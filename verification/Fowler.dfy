/** The three Fowler samplers of LogicLib.c, and how they agree with each other and with the coadder. */
module Fowler {
  import opened Grid
  import opened Coadd

  /** The 32-bit coadder takes the same pixels from one call as from two exactly in these cases. */
  lemma SkipSplitsIff(nc: nat, ns: nat, nskip: nat, a: seq<nat>, b: seq<nat>)
    requires nc > 0 && ns > 0
    ensures nskip * nc >= 0
    ensures var s1 := Skipped(0, |a|, nc, ns, nskip);
            var s2 := Skipped(|a| - s1, |b|, nc, ns, nskip);
            var s := Skipped(0, |a| + |b|, nc, ns, nskip);
            a[s1..] + b[s2..] == (a + b)[s..]
            <==> nskip == 0 || a == [] || b == [] || |a| + |b| <= nskip * nc || |a| >= nskip * nc + ns * nc
  {
    GroupPositive(nc, ns);
    MulMonotone(0, nskip, nc);
    if nskip > 0 {
      MulMonotone(1, nskip, nc);
    }
    var s1 := Skipped(0, |a|, nc, ns, nskip);
    var s2 := Skipped(|a| - s1, |b|, nc, ns, nskip);
    var s := Skipped(0, |a| + |b|, nc, ns, nskip);
    assert |a[s1..] + b[s2..]| == |a| - s1 + |b| - s2;
    assert |(a + b)[s..]| == |a| + |b| - s;
    if s == s1 + s2 {
      if s1 == |a| {
        assert (a + b)[s..] == b[s2..];
        assert a[s1..] + b[s2..] == b[s2..];
      } else {
        assert (a + b)[s..] == a[s1..] + b;
      }
    }
  }

  // ---- one frame at a time ----

  function AddFrame(acc: seq<nat>, frame: seq<nat>): (r: seq<nat>)
    requires |frame| <= |acc|
    ensures |r| == |acc|
  {
    seq(|acc|, i requires 0 <= i < |acc| => if i < |frame| then (acc[i] + frame[i]) % WORD else acc[i])
  }

  /** fowler: adds nelems pixels of a frame to the accumulators. */
  method AddImage(image: array<nat>, fow: array<nat>, nelems: nat)
    requires image != fow && nelems <= image.Length && nelems <= fow.Length
    modifies fow
    ensures fow[..] == AddFrame(old(fow[..]), image[..nelems])
  {
    var i := 0;
    while i < nelems
      invariant 0 <= i <= nelems
      invariant forall p :: 0 <= p < fow.Length ==>
                  fow[p] == if p < i then (old(fow[p]) + image[p]) % WORD else old(fow[p])
    {
      fow[i] := (fow[i] + image[i]) % WORD;
      i := i + 1;
    }
  }

  function AddFrames(acc: seq<nat>, frames: seq<seq<nat>>, n: nat): (r: seq<nat>)
    requires n <= |frames| && forall f :: f in frames ==> |f| <= |acc|
    ensures |r| == |acc|
  {
    if n == 0 then acc
    else
      assert frames[n - 1] in frames;
      AddFrame(AddFrames(acc, frames, n - 1), frames[n - 1])
  }

  function FrameSum(frames: seq<seq<nat>>, p: nat, n: nat): nat
    requires n <= |frames| && forall f :: f in frames ==> p < |f|
  {
    if n == 0 then 0
    else
      assert frames[n - 1] in frames;
      FrameSum(frames, p, n - 1) + frames[n - 1][p]
  }

  lemma FrameSumOne(frames: seq<seq<nat>>, p: nat, n: nat)
    requires 0 < n <= |frames| && forall f :: f in frames ==> p < |f|
    ensures frames[n - 1] in frames
    ensures FrameSum(frames, p, n) == FrameSum(frames, p, n - 1) + frames[n - 1][p]
  {
  }

  lemma NoFrames(frames: seq<seq<nat>>, p: nat)
    requires forall f :: f in frames ==> p < |f|
    ensures FrameSum(frames, p, 0) == 0
  {
  }

  lemma {:induction false} AddFramesClosedForm(acc: seq<nat>, frames: seq<seq<nat>>, n: nat, p: nat)
    requires n <= |frames| && p < |acc| && acc[p] < WORD
    requires forall f :: f in frames ==> p < |f| <= |acc|
    ensures AddFrames(acc, frames, n)[p] == (acc[p] + FrameSum(frames, p, n)) % WORD
    decreases n
  {
    hide FrameSum;
    if n > 0 {
      FrameSumOne(frames, p, n);
      AddFramesClosedForm(acc, frames, n - 1, p);
      assert frames[n - 1] in frames;
      ModAdd(acc[p] + FrameSum(frames, p, n - 1), frames[n - 1][p]);
    } else {
      NoFrames(frames, p);
    }
  }

  // ---- a stream of interleaved samples ----

  /** Accumulators, and pixels, of g whole groups of nc channels and ns samples. */
  function Size(nc: nat, g: nat): nat {
    MulMonotone(0, g, nc);
    g * nc
  }

  function Total(nc: nat, ns: nat, g: nat): nat {
    MulMonotone(0, g, ns);
    MulMonotone(0, g * ns, nc);
    g * ns * nc
  }

  /** The stream position of a sample. */
  function Position(nc: nat, ns: nat, g: nat, s: nat, c: nat): nat {
    MulMonotone(0, g, ns);
    MulMonotone(0, Cell(ns, g, s), nc);
    Cell(nc, Cell(ns, g, s), c)
  }

  /** Whole groups in a buffer of nelems pixels. */
  function Groups(nelems: nat, nc: nat, ns: nat): (g: nat)
    requires nc > 0 && ns > 0
    ensures Total(nc, ns, g) <= nelems
  {
    var g := nelems / nc / ns;
    assert g * ns <= nelems / nc;
    MulMonotone(g * ns, nelems / nc, nc);
    g
  }

  /** No whole group is left out: the pixels behind the last one are fewer than a group. */
  lemma GroupsAreAll(nelems: nat, nc: nat, ns: nat)
    requires nc > 0 && ns > 0
    ensures Groups(nelems, nc, ns) * ns * nc <= nelems < (Groups(nelems, nc, ns) + 1) * ns * nc
  {
    var per := nelems / nc;
    BelowNext(nelems, nc);
    BelowNext(per, ns);
    MulMonotone(per + 1, (per / ns + 1) * ns, nc);
    assert Total(nc, ns, Groups(nelems, nc, ns)) <= nelems;
  }

  lemma BelowNext(n: nat, d: nat)
    requires d > 0
    ensures n < (n / d + 1) * d
  {
    assert n == n / d * d + n % d;
    MulSplit(n / d, 1, d);
  }

  lemma PositionFits(nc: nat, ns: nat, g: nat, block: nat, samp: nat, c: nat)
    requires block < g && samp < ns && c < nc
    ensures Position(nc, ns, block, samp, c) < Total(nc, ns, g)
    ensures Slot(nc, ns, Position(nc, ns, block, samp, c)) == Cell(nc, block, c) < Size(nc, g)
  {
    SlotOf(nc, ns, block, samp, c);
    CellInside(nc, g, block, c);
    CellInside(ns, g, block, samp);
    CellInside(nc, g * ns, Cell(ns, block, samp), c);
    assert ns * g == g * ns && nc * g == g * nc && nc * (g * ns) == g * ns * nc;
  }

  /** Group, sample and channel of stream pixel k. */
  function GroupOf(nc: nat, ns: nat, k: nat): (g: nat)
    requires nc > 0 && ns > 0
  {
    k / nc / ns
  }

  function SampleOf(nc: nat, ns: nat, k: nat): (s: nat)
    requires nc > 0 && ns > 0
    ensures s < ns
  {
    k / nc % ns
  }

  function ChannelOf(nc: nat, k: nat): (c: nat)
    requires nc > 0
    ensures c < nc
  {
    k % nc
  }

  /** Every position below the total is a sample of one of the groups. */
  lemma PositionOf(nc: nat, ns: nat, g: nat, k: nat)
    requires nc > 0 && ns > 0 && k < Total(nc, ns, g)
    ensures GroupOf(nc, ns, k) < g
    ensures k == Position(nc, ns, GroupOf(nc, ns, k), SampleOf(nc, ns, k), ChannelOf(nc, k))
  {
    CellDigits(nc, ns, k);
    var b, s := k / nc / ns, k / nc % ns;
    if b >= g {
      MulMonotone(g, b, ns);
      MulMonotone(g * ns, Cell(ns, b, s), nc);
      assert false;
    }
  }

  lemma PositionDigits(nc: nat, ns: nat, g: nat, s: nat, c: nat)
    requires s < ns && c < nc
    ensures var k := Position(nc, ns, g, s, c);
            GroupOf(nc, ns, k) == g && SampleOf(nc, ns, k) == s && ChannelOf(nc, k) == c
  {
    CellSplit(nc, Cell(ns, g, s), c);
    CellSplit(ns, g, s);
  }

  /** Pixels of whole groups go to accumulators that exist. */
  lemma StreamInRange(nc: nat, ns: nat, g: nat, n: nat)
    requires nc > 0 && ns > 0 && n <= Total(nc, ns, g)
    ensures InRange(Size(nc, g), nc, ns, 0, n)
  {
    hide Size, Total, Position, Slot, GroupOf, SampleOf, ChannelOf;
    forall k: nat | 0 <= k < n
      ensures Slot(nc, ns, k) < Size(nc, g)
    {
      PositionOf(nc, ns, g, k);
      PositionFits(nc, ns, g, GroupOf(nc, ns, k), SampleOf(nc, ns, k), ChannelOf(nc, k));
    }
  }

  lemma PixelFits(nc: nat, ns: nat, g: nat, block: nat, samp: nat, c: nat, len: nat)
    requires block < g && samp < ns && c < nc && len == Size(nc, g)
    ensures var k := Position(nc, ns, block, samp, c);
            && InRange(len, nc, ns, 0, k) && InRange(len, nc, ns, 0, k + 1)
            && Slot(nc, ns, k) == Cell(nc, block, c) < len
  {
    hide Slot, InRange, Size, Total, Position, Cell;
    PositionFits(nc, ns, g, block, samp, c);
    StreamInRange(nc, ns, g, Position(nc, ns, block, samp, c) + 1);
    StreamInRange(nc, ns, g, Position(nc, ns, block, samp, c));
  }

  /** One accumulator addition is one more pixel of the stream. */
  lemma OnePixel(was: seq<nat>, seg: seq<nat>, base: nat, nc: nat, ns: nat, pixels: seq<nat>)
    requires nc > 0 && ns > 0 && pixels != [] && base + |seg| <= |was|
    requires InRange(|seg|, nc, ns, 0, |pixels| - 1) && InRange(|seg|, nc, ns, 0, |pixels|)
    ensures Slot(nc, ns, |pixels| - 1) < |seg|
    ensures var before := Splice<nat>(was, base, Stream(seg, nc, ns, 0, pixels[..|pixels| - 1]));
            var p := base + Slot(nc, ns, |pixels| - 1);
            before[p := (before[p] + pixels[|pixels| - 1]) % WORD]
                == Splice<nat>(was, base, Stream(seg, nc, ns, 0, pixels))
  {
    hide Slot, InRange, AddAt, Splice;
    StreamOne(seg, nc, ns, 0, pixels);
    SpliceAdd(was, base, Stream(seg, nc, ns, 0, pixels[..|pixels| - 1]), Slot(nc, ns, |pixels| - 1),
              pixels[|pixels| - 1]);
  }

  lemma SpliceAdd(was: seq<nat>, base: nat, seg: seq<nat>, p: nat, v: nat)
    requires base + |seg| <= |was| && p < |seg|
    ensures Splice<nat>(was, base, seg)[base + p] == seg[p]
    ensures Splice<nat>(was, base, seg)[base + p := (seg[p] + v) % WORD] == Splice<nat>(was, base, AddAt(seg, p, v))
  {
  }

  lemma StreamStart(was: seq<nat>, seg: seq<nat>, nc: nat, ns: nat, base: nat, none: seq<nat>)
    requires nc > 0 && ns > 0 && none == [] && base + |seg| <= |was| && seg == was[base..base + |seg|]
    ensures InRange(|seg|, nc, ns, 0, 0)
    ensures was == Splice<nat>(was, base, Stream(seg, nc, ns, 0, none))
  {
  }

  /** The loops' pixel counter moves through the positions in order. */
  lemma PositionNext(nc: nat, ns: nat, g: nat, s: nat, c: nat)
    ensures Position(nc, ns, g, s, c + 1) == Position(nc, ns, g, s, c) + 1
    ensures Position(nc, ns, g, s, nc) == Position(nc, ns, g, s + 1, 0)
    ensures Position(nc, ns, g, ns, 0) == Position(nc, ns, g + 1, 0, 0)
    ensures Position(nc, ns, 0, 0, 0) == 0 && Position(nc, ns, g, 0, 0) == Total(nc, ns, g)
  {
    RowEnd(nc, Cell(ns, g, s));
    RowEnd(ns, g);
  }

  class Sampler {
    var fowlerPtr: nat   // where the next accumulators start in the Fowler buffer

    constructor (start: nat)
      ensures fowlerPtr == start
    {
      fowlerPtr := start;
    }

    /** LOGIC_fowler_P2P; LOGIC_fowler_L2L is the same loop with a row of totcols pixels for the amplifiers. */
    method SamplePixels(image: array<nat>, fow: array<nat>, nelems: nat, ns: nat, nc: nat)
      requires image != fow && nc > 0 && ns > 0 && nelems <= image.Length
      requires fowlerPtr + Size(nc, Groups(nelems, nc, ns)) <= fow.Length
      modifies this, fow
      ensures var g := Groups(nelems, nc, ns);
              && fowlerPtr == old(fowlerPtr) + Size(nc, g)
              && InRange(Size(nc, g), nc, ns, 0, Total(nc, ns, g))
              && fow[..] == Splice<nat>(old(fow[..]), old(fowlerPtr),
                                   Stream(old(fow[fowlerPtr..fowlerPtr + Size(nc, g)]), nc, ns, 0,
                                          image[..Total(nc, ns, g)]))
    {
      hide Slot, InRange, AddAt, Splice, Position, Total;
      var pixperamp := nelems / nc / ns;
      ghost var was, seg := fow[..], fow[fowlerPtr..fowlerPtr + Size(nc, pixperamp)];
      var pix, block, base := 0, 0, fowlerPtr;
      StreamStart(was, seg, nc, ns, base, image[..0]);
      PositionNext(nc, ns, 0, 0, 0);
      while block < pixperamp
        invariant 0 <= block <= pixperamp && pix == Position(nc, ns, block, 0, 0) <= nelems
        invariant InRange(|seg|, nc, ns, 0, pix)
        invariant fow[..] == Splice<nat>(was, base, Stream(seg, nc, ns, 0, image[..pix]))
        modifies fow
      {
        var samp := 0;
        while samp < ns
          invariant 0 <= samp <= ns && pix == Position(nc, ns, block, samp, 0) <= nelems
          invariant InRange(|seg|, nc, ns, 0, pix)
          invariant fow[..] == Splice<nat>(was, base, Stream(seg, nc, ns, 0, image[..pix]))
          modifies fow
        {
          pix := SampleRow(image, fow, nelems, base, nc, ns, pixperamp, block, samp, pix, was, seg);
          samp := samp + 1;
        }
        PositionNext(nc, ns, block, ns, 0);
        block := block + 1;
      }
      PositionNext(nc, ns, pixperamp, 0, 0);
      fowlerPtr := base + pixperamp * nc;
    }

    /** The innermost loop: one sample of every channel. */
    method SampleRow(image: array<nat>, fow: array<nat>, ghost nelems: nat, base: nat, nc: nat, ns: nat,
                     ghost g: nat, block: nat, samp: nat, start: nat, ghost was: seq<nat>, ghost seg: seq<nat>)
      returns (pix: nat)
      requires image != fow && nc > 0 && block < g && samp < ns
      requires Total(nc, ns, g) <= nelems <= image.Length && |seg| == Size(nc, g) && base + |seg| <= |was| == fow.Length
      requires start == Position(nc, ns, block, samp, 0) <= nelems
      requires InRange(|seg|, nc, ns, 0, start)
      requires fow[..] == Splice<nat>(was, base, Stream(seg, nc, ns, 0, image[..start]))
      modifies fow
      ensures pix == Position(nc, ns, block, samp + 1, 0) <= nelems
      ensures InRange(|seg|, nc, ns, 0, pix)
      ensures fow[..] == Splice<nat>(was, base, Stream(seg, nc, ns, 0, image[..pix]))
    {
      hide Slot, InRange, AddAt, Splice, Stream, Position, Total, Size;
      pix := start;
      var ch := 0;
      while ch < nc
        invariant 0 <= ch <= nc && pix == Position(nc, ns, block, samp, ch) <= nelems
        invariant InRange(|seg|, nc, ns, 0, pix)
        invariant fow[..] == Splice<nat>(was, base, Stream(seg, nc, ns, 0, image[..pix]))
      {
        PositionFits(nc, ns, g, block, samp, ch);
        PixelFits(nc, ns, g, block, samp, ch, |seg|);
        OnePixel(was, seg, base, nc, ns, image[..pix + 1]);
        assert image[..pix + 1][..pix] == image[..pix];
        PositionNext(nc, ns, block, samp, ch);
        ghost var before := fow[..];
        fow[base + (block * nc + ch)] := (fow[base + (block * nc + ch)] + image[pix]) % WORD;
        assert fow[..] == before[base + Cell(nc, block,
                                             ch) := (before[base + Cell(nc, block,
                                                 ch)] + image[..pix + 1][pix]) % WORD];
        pix, ch := pix + 1, ch + 1;
      }
      PositionNext(nc, ns, block, samp, nc);
    }
  }

  // ---- the samplers agree ----

  /** The counter-driven coadder, run from reset over whole groups, ends at the offset P2P moves its pointer by. */
  lemma FinalOffset(gblPix: nat, sampleCntr: nat, chCntr: nat, nc: nat, ns: nat, g: nat)
    requires Digits(gblPix, sampleCntr, chCntr, nc, ns)
    requires Count(gblPix, sampleCntr, chCntr, nc, ns) == Total(nc, ns, g)
    ensures gblPix == Size(nc, g) && sampleCntr == 0 && chCntr == 0
  {
    var block := gblPix / nc;
    assert gblPix == block * nc;
    CellInjective(nc, Cell(ns, block, sampleCntr), chCntr, g * ns, 0);
    CellInjective(ns, block, sampleCntr, g, 0);
  }

  ghost predicate SameSize(frames: seq<seq<nat>>, n: nat) {
    forall f :: f in frames ==> |f| == n
  }

  /** The line-interleaving of the frames: every row once from each frame, then the next row. */
  function Interleaved(frames: seq<seq<nat>>, tc: nat, rows: nat): (s: seq<nat>)
    requires tc > 0 && frames != [] && SameSize(frames, Size(tc, rows))
    ensures |s| == Total(tc, |frames|, rows)
  {
    seq(Total(tc, |frames|, rows), k requires 0 <= k < Total(tc, |frames|, rows) =>
      InterleavedInside(frames, tc, rows, k);
      frames[SampleOf(tc, |frames|, k)][Cell(tc, GroupOf(tc, |frames|, k), ChannelOf(tc, k))])
  }

  lemma InterleavedInside(frames: seq<seq<nat>>, tc: nat, rows: nat, k: nat)
    requires tc > 0 && frames != [] && SameSize(frames, Size(tc, rows)) && k < Total(tc, |frames|, rows)
    ensures frames[SampleOf(tc, |frames|, k)] in frames
    ensures 0 <= Cell(tc, GroupOf(tc, |frames|, k), ChannelOf(tc, k)) < |frames[SampleOf(tc, |frames|, k)]|
  {
    hide Total, Cell, SampleOf, GroupOf, ChannelOf, Position, Size, Slot;
    PositionOf(tc, |frames|, rows, k);
    assert frames[SampleOf(tc, |frames|, k)] in frames;
    PositionFits(tc, |frames|, rows, GroupOf(tc, |frames|, k), SampleOf(tc, |frames|, k), ChannelOf(tc, k));
  }

  lemma InterleavedAt(frames: seq<seq<nat>>, tc: nat, rows: nat, row: nat, s: nat, col: nat)
    requires frames != [] && SameSize(frames, Size(tc, rows))
    requires row < rows && s < |frames| && col < tc
    ensures Position(tc, |frames|, row, s, col) < Total(tc, |frames|, rows)
    ensures frames[s] in frames && 0 <= Cell(tc, row, col) < Size(tc, rows)
    ensures Interleaved(frames, tc, rows)[Position(tc, |frames|, row, s, col)] == frames[s][Cell(tc, row, col)]
  {
    hide Total, Cell, SampleOf, GroupOf, ChannelOf, Position, Size, Slot;
    PositionFits(tc, |frames|, rows, row, s, col);
    PositionDigits(tc, |frames|, row, s, col);
    InterleavedInside(frames, tc, rows, Position(tc, |frames|, row, s, col));
  }

  lemma {:induction false} SamplesAreFrames(frames: seq<seq<nat>>, tc: nat, rows: nat, row: nat, col: nat, s: nat)
    requires frames != [] && SameSize(frames, Size(tc, rows))
    requires row < rows && s <= |frames| && col < tc
    ensures 0 <= Cell(tc, row, col) < Size(tc, rows)
    ensures SampleSum(Interleaved(frames, tc, rows), tc, |frames|, row, col, s)
        == FrameSum(frames, Cell(tc, row, col), s)
    decreases s
  {
    hide Interleaved, Total;
    CellInside(tc, rows, row, col);
    if s > 0 {
      SamplesAreFrames(frames, tc, rows, row, col, s - 1);
      InterleavedAt(frames, tc, rows, row, s - 1, col);
    }
  }

  lemma SlotOfFrames(acc: seq<nat>, frames: seq<seq<nat>>, tc: nat, rows: nat, row: nat, col: nat, p: nat)
    requires frames != [] && |acc| == Size(tc, rows) && SameSize(frames, |acc|)
    requires row < rows && col < tc && p == Cell(tc, row, col) && p < |acc| && acc[p] < WORD
    ensures InRange(|acc|, tc, |frames|, 0, Total(tc, |frames|, rows))
    ensures Stream(acc, tc, |frames|, 0, Interleaved(frames, tc, rows))[p] == AddFrames(acc, frames, |frames|)[p]
  {
    hide Interleaved, Total, Stream, AddFrames, SlotSum, SampleSum, FrameSum, InRange, Cell, Size, Slot;
    var ns, lines := |frames|, Interleaved(frames, tc, rows);
    StreamInRange(tc, ns, rows, |lines|);
    StreamClosedForm(acc, tc, ns, 0, lines, p);
    SlotSumIsSampleSum(tc, ns, lines, row, col);
    SamplesAreFrames(frames, tc, rows, row, col, ns);
    AddFramesClosedForm(acc, frames, ns, p);
  }

  /** Sampling line by line as the lines arrive equals adding the frames one after the other. */
  lemma LinesEqualFrames(acc: seq<nat>, frames: seq<seq<nat>>, tc: nat, rows: nat)
    requires tc > 0 && frames != [] && |acc| == Size(tc, rows) && SameSize(frames, |acc|)
    requires forall p :: 0 <= p < |acc| ==> acc[p] < WORD
    ensures InRange(|acc|, tc, |frames|, 0, Total(tc, |frames|, rows))
    ensures Stream(acc, tc, |frames|, 0, Interleaved(frames, tc, rows)) == AddFrames(acc, frames, |frames|)
  {
    hide Interleaved, Total, Stream, AddFrames, InRange;
    StreamInRange(tc, |frames|, rows, Total(tc, |frames|, rows));
    forall p | 0 <= p < |acc|
      ensures Stream(acc, tc, |frames|, 0, Interleaved(frames, tc, rows))[p] == AddFrames(acc, frames, |frames|)[p]
    {
      assert p < tc * rows;
      CellJoin(tc, rows, p);
      SlotOfFrames(acc, frames, tc, rows, p / tc, p % tc, p);
    }
  }

  /**
   * Sampling pixel by pixel: every channel of every whole group of the buffer ends with the sum of its own ns
   * samples added to what was there, in 32 bits.
   */
  lemma SampledPixel(acc: seq<nat>, image: seq<nat>, nelems: nat, nc: nat, ns: nat, block: nat, c: nat)
    requires nc > 0 && ns > 0 && nelems <= |image| && |acc| == Size(nc, Groups(nelems, nc, ns))
    requires c < nc && (block + 1) * ns * nc <= nelems
    requires forall p :: 0 <= p < |acc| ==> acc[p] < 4294967296
    ensures var g := Groups(nelems, nc, ns);
            && InRange(|acc|, nc, ns, 0, Total(nc, ns, g))
            && 0 <= block * nc + c < |acc|
            && Stream(acc, nc, ns, 0, image[..Total(nc, ns, g)])[block * nc + c]
               == (acc[block * nc + c] + SampleSum(image, nc, ns, block, c, ns)) % 4294967296
  {
    var g := Groups(nelems, nc, ns);
    hide Stream, InRange, SlotSum, SampleSum, Groups;
    GroupsAreAll(nelems, nc, ns);
    if block >= g {
      MulMonotone(g + 1, block + 1, ns);
      MulMonotone((g + 1) * ns, (block + 1) * ns, nc);
      assert false;
    }
    CellInside(nc, g, block, c);
    assert nc * g == g * nc;
    var pixels := image[..Total(nc, ns, g)];
    StreamInRange(nc, ns, g, |pixels|);
    StreamClosedForm(acc, nc, ns, 0, pixels, Cell(nc, block, c));
    SlotSumIsSampleSum(nc, ns, pixels, block, c);
    WithinPrefix(image, nc, ns, g, block, c, ns);
  }

  /** The samples of a whole group lie in the part of the buffer that is sampled. */
  lemma {:induction false} WithinPrefix(image: seq<nat>, nc: nat, ns: nat, g: nat, block: nat, c: nat, s: nat)
    requires block < g && c < nc && s <= ns && Total(nc, ns, g) <= |image|
    ensures SampleSum(image[..Total(nc, ns, g)], nc, ns, block, c, s) == SampleSum(image, nc, ns, block, c, s)
    decreases s
  {
    if s > 0 {
      WithinPrefix(image, nc, ns, g, block, c, s - 1);
      PositionFits(nc, ns, g, block, s - 1, c);
    }
  }
}
