/** Whole frames in multi-extension mode: raw chunks through the unscrambler into every amplifier's extension. */
module ExtensionFrames {
  import opened Grid
  import opened Amplifiers
  import opened Orientation
  import opened Extensions
  import U = Unscramble

  /** Equal-sized amplifiers, rotated or not; chan[a] is the read channel the map sends to amplifier a. */
  datatype Rig = Rig(amps: seq<Amp>, physMap: seq<int>, chan: seq<nat>, ncols: nat, nrows: nat)
  {
    function N(): nat { |amps| }

    /** Pixels of one amplifier in a number of rows. */
    function PerAmp(rows: nat): nat {
      MulMonotone(0, rows, ncols);
      rows * ncols
    }

    ghost predicate Valid() {
      && |amps| > 0 && ncols > 0 && nrows > 0
      && U.OneToOne(physMap, chan, |amps|)
      && (forall a :: 0 <= a < |amps| ==> amps[a].Ncols() == ncols && amps[a].nrows == nrows && Regular(amps[a]))
    }
  }

  /** The whole frame, and an image buffer with room for it. */
  ghost predicate Frame<T>(rig: Rig, raw: seq<T>, im: seq<T>) {
    rig.Valid() && |raw| == rig.PerAmp(rig.nrows) * rig.N() && rig.N() * rig.PerAmp(rig.nrows) <= |im|
  }

  function ChannelOf<T>(rig: Rig, raw: seq<T>, a: nat): (s: seq<T>)
    requires rig.Valid() && |raw| == rig.PerAmp(rig.nrows) * rig.N() && a < rig.N()
    ensures |s| == rig.PerAmp(rig.nrows)
  {
    Channel(raw, rig.N(), rig.chan[a], rig.PerAmp(rig.nrows))
  }

  /** All kept amplifiers' writers after d rows of the frame, whatever their buffers hold. */
  ghost predicate InFrame<T>(es: seq<Ext<T>>, rig: Rig, raw: seq<T>, d: nat)
    requires rig.Valid() && |raw| == rig.PerAmp(rig.nrows) * rig.N()
  {
    && |es| == rig.N()
    && forall a :: 0 <= a < rig.N() && rig.amps[a].discard <= 0 ==>
         Placed(es[a], rig.amps[a], ChannelOf(rig, raw, a), d)
  }

  lemma RowsFit(rig: Rig, d: nat, h: nat)
    requires d + h <= rig.nrows
    ensures rig.PerAmp(d) + rig.PerAmp(h) == rig.PerAmp(d + h) <= rig.PerAmp(rig.nrows)
  {
    MulSplit(d, h, rig.ncols);
    MulMonotone(d + h, rig.nrows, rig.ncols);
  }

  /**
   * The image buffer after rows d to d + h of the raw frame have been unscrambled over it; junk[i] is what the
   * copy was made with that channel i was turned in.
   */
  function ImageOf<T>(rig: Rig, raw: seq<T>, im: seq<T>, d: nat, h: nat, junk: seq<seq<T>>): (r: seq<T>)
    requires Frame(rig, raw, im) && d + h <= rig.nrows
    ensures |r| == |im|
  {
    RowsFit(rig, d, h);
    ChunkInside(rig.N(), rig.PerAmp(h), rig.PerAmp(rig.nrows));
    U.ImageAfter(im, RawRun(raw, rig.N(), rig.PerAmp(rig.nrows), rig.PerAmp(d), rig.PerAmp(h)),
                 rig.amps, rig.physMap, rig.PerAmp(h), rig.N(), junk)
  }

  lemma ChunkInside(n: nat, m: nat, total: nat)
    requires m <= total
    ensures 0 <= n * m <= n * total && n * m == m * n
  {
    MulMonotone(0, m, n);
    MulMonotone(m, total, n);
  }

  /** Amplifier a's block of the image buffer. */
  function BlockOf<T>(rig: Rig, im: seq<T>, a: nat, h: nat): (b: seq<T>)
    requires h <= rig.nrows && a < rig.N() && rig.N() * rig.PerAmp(rig.nrows) <= |im|
    ensures |b| == rig.PerAmp(h)
  {
    BlockFits(rig, a, h);
    im[U.Start(a, rig.PerAmp(h))..U.Start(a, rig.PerAmp(h)) + rig.PerAmp(h)]
  }

  lemma BlockFits(rig: Rig, a: nat, h: nat)
    requires h <= rig.nrows && a < rig.N()
    ensures U.Start(a, rig.PerAmp(h)) + rig.PerAmp(h) <= rig.N() * rig.PerAmp(rig.nrows)
  {
    U.BlockInside(rig.N(), rig.PerAmp(h), a);
    RowsFit(rig, h, 0);
    RowsFit(rig, h, rig.nrows - h);
    ChunkInside(rig.N(), rig.PerAmp(h), rig.PerAmp(rig.nrows));
  }

  lemma PerAmpIs(rig: Rig, rows: nat)
    ensures rig.PerAmp(rows) == rig.ncols * rows
  {
  }

  /** The block the writer is given is the chunk block of the amplifier's own channel. */
  lemma GivenBlock<T>(rig: Rig, raw: seq<T>, im: seq<T>, d: nat, h: nat, junk: seq<seq<T>>, a: nat)
    requires Frame(rig, raw, im) && d + h <= rig.nrows && a < rig.N()
    ensures |ChannelOf(rig, raw, a)| == rig.amps[a].Ncols() * rig.amps[a].nrows
    ensures |BlockOf(rig, im, a, h)| == rig.amps[a].Ncols() * h
    ensures BlockOf(rig, ImageOf(rig, raw, im, d, h, junk), a, h)
         == ChunkBlock(rig.amps[a], ChannelOf(rig, raw, a), BlockOf(rig, im, a, h), d, h, U.JunkOf(junk, rig.chan[a]))
  {
    hide ChunkBlock, Channel, U.ImageAfter, U.JunkOf, RawRun, Rig.PerAmp, Regular;
    RowsFit(rig, d, h);
    BlockFits(rig, a, h);
    PerAmpIs(rig, d);
    PerAmpIs(rig, h);
    PerAmpIs(rig, rig.nrows);
    ChunkInside(rig.N(), rig.PerAmp(h), rig.PerAmp(rig.nrows));
    ChunkFromRaw(raw, im, rig.amps, rig.physMap, rig.chan[a], rig.amps[a], d, h, rig.PerAmp(rig.nrows), rig.PerAmp(d),
                 rig.PerAmp(h), U.Start(a, rig.PerAmp(h)), junk);
  }

  /** One call of the writer: every kept amplifier takes its block of the image buffer. */
  ghost function WriteAll<T>(es: seq<Ext<T>>, rig: Rig, raw: seq<T>, im: seq<T>, d: nat, h: nat,
                             junk: seq<seq<T>>): (r: seq<Ext<T>>)
    requires Frame(rig, raw, im) && InFrame(es, rig, raw, d) && d + h <= rig.nrows
    ensures |r| == |es|
    ensures InFrame(r, rig, raw, d + h)
    ensures forall a :: 0 <= a < |es| && rig.amps[a].discard > 0 ==> r[a] == es[a]
  {
    hide ChunkBlock, Write, CanWrite, Placed, ChannelOf, BlockOf, ImageOf, Frame;
    EveryAmpSteps(es, rig, raw, im, d, h, junk);
    seq(|es|, a requires 0 <= a < |es| =>
      if rig.amps[a].discard <= 0
      then Write(es[a], rig.PerAmp(rig.nrows), BlockOf(rig, ImageOf(rig, raw, im, d, h, junk), a, h))
      else es[a])
  }

  lemma AmpSteps<T>(e: Ext<T>, rig: Rig, raw: seq<T>, im: seq<T>, d: nat, h: nat, junk: seq<seq<T>>, a: nat)
    requires Frame(rig, raw, im) && d + h <= rig.nrows && a < rig.N()
    requires Placed(e, rig.amps[a], ChannelOf(rig, raw, a), d)
    ensures CanWrite(e, rig.PerAmp(rig.nrows), rig.PerAmp(h))
    ensures |BlockOf(rig, im, a, h)| == rig.amps[a].Ncols() * h
    ensures var e' := Write(e, rig.PerAmp(rig.nrows), BlockOf(rig, ImageOf(rig, raw, im, d, h, junk), a, h));
            && Placed(e', rig.amps[a], ChannelOf(rig, raw, a), d + h)
            && e' == Written(e, rig.amps[a], ChannelOf(rig, raw, a),
                             Chunk(h, BlockOf(rig, im, a, h), U.JunkOf(junk, rig.chan[a])), d)
  {
    hide ChunkBlock, Write, CanWrite, Placed, InExtension, KeepsFinished, ChannelOf, BlockOf, ImageOf, U.JunkOf;
    GivenBlock(rig, raw, im, d, h, junk, a);
    ChunkStep(e, rig.amps[a], ChannelOf(rig, raw, a), BlockOf(rig, im, a, h), d, h, U.JunkOf(junk, rig.chan[a]));
  }

  lemma EveryAmpSteps<T>(es: seq<Ext<T>>, rig: Rig, raw: seq<T>, im: seq<T>, d: nat, h: nat, junk: seq<seq<T>>)
    requires Frame(rig, raw, im) && InFrame(es, rig, raw, d) && d + h <= rig.nrows
    ensures rig.Valid() && |es| == rig.N() && h <= rig.nrows && rig.N() * rig.PerAmp(rig.nrows) <= |im|
    ensures forall a :: 0 <= a < rig.N() && rig.amps[a].discard <= 0 ==>
              && CanWrite(es[a], rig.PerAmp(rig.nrows), rig.PerAmp(h))
              && Placed(Write(es[a], rig.PerAmp(rig.nrows), BlockOf(rig, ImageOf(rig, raw, im, d, h, junk), a, h)),
                        rig.amps[a], ChannelOf(rig, raw, a), d + h)
  {
    hide Write, CanWrite, Placed, ChannelOf, BlockOf, ImageOf;
    forall a | 0 <= a < rig.N() && rig.amps[a].discard <= 0
      ensures CanWrite(es[a], rig.PerAmp(rig.nrows), rig.PerAmp(h))
      ensures Placed(Write(es[a], rig.PerAmp(rig.nrows), BlockOf(rig, ImageOf(rig, raw, im, d, h, junk), a, h)),
                     rig.amps[a], ChannelOf(rig, raw, a), d + h)
    {
      AmpSteps(es[a], rig, raw, im, d, h, junk, a);
    }
  }

  // ---- a frame in chunks ----

  /** One chunk of h rows, and what the copies of its rotations were made with. */
  datatype Call<T> = Call(h: nat, junk: seq<seq<T>>)

  ghost predicate RowSplit<T>(calls: seq<Call<T>>, rows: nat) {
    if calls == [] then rows == 0 else calls[0].h <= rows && RowSplit(calls[1..], rows - calls[0].h)
  }

  /** What the next chunk needs: the frame, the writers' state and the split of the rows that are left. */
  ghost predicate CanRun<T>(es: seq<Ext<T>>, rig: Rig, raw: seq<T>, im: seq<T>, calls: seq<Call<T>>, d: nat) {
    Frame(rig, raw, im) && d <= rig.nrows && InFrame(es, rig, raw, d) && RowSplit(calls, rig.nrows - d)
  }

  /** The writers after the first chunk of calls, and the image buffer. */
  ghost function FirstWritten<T>(es: seq<Ext<T>>, rig: Rig, raw: seq<T>, im: seq<T>, calls: seq<Call<T>>, d: nat):
      (r: (seq<Ext<T>>, seq<T>))
    requires CanRun(es, rig, raw, im, calls, d) && calls != []
  {
    (WriteAll(es, rig, raw, im, d, calls[0].h, calls[0].junk), ImageOf(rig, raw, im, d, calls[0].h, calls[0].junk))
  }

  lemma CanRunOn<T>(es: seq<Ext<T>>, rig: Rig, raw: seq<T>, im: seq<T>, calls: seq<Call<T>>, d: nat)
    requires CanRun(es, rig, raw, im, calls, d) && calls != []
    ensures Frame(rig, raw, im) && InFrame(es, rig, raw, d) && d + calls[0].h <= rig.nrows
    ensures var (es', im') := FirstWritten(es, rig, raw, im, calls, d);
            CanRun(es', rig, raw, im', calls[1..], d + calls[0].h)
  {
    hide InFrame, Rig.Valid, Rig.PerAmp, ImageOf, WriteAll;
  }

  /** The rest of a frame, unscrambled and written chunk by chunk into the same image buffer. */
  ghost function RunFrame<T>(es: seq<Ext<T>>, rig: Rig, raw: seq<T>, im: seq<T>, calls: seq<Call<T>>, d: nat):
      (r: seq<Ext<T>>)
    requires CanRun(es, rig, raw, im, calls, d)
    decreases |calls|
  {
    hide CanRun, InFrame, Rig.Valid, Rig.PerAmp, FirstWritten, Frame, RowSplit;
    if calls == [] then es
    else
      CanRunOn(es, rig, raw, im, calls, d);
      var (es', im') := FirstWritten(es, rig, raw, im, calls, d);
      RunFrame(es', rig, raw, im', calls[1..], d + calls[0].h)
  }

  /** The chunks amplifier a's writer is given. */
  function ChunksOf<T>(rig: Rig, raw: seq<T>, im: seq<T>, calls: seq<Call<T>>, d: nat, a: nat): seq<Chunk<T>>
    requires Frame(rig, raw, im) && d <= rig.nrows && RowSplit(calls, rig.nrows - d) && a < rig.N()
    decreases |calls|
  {
    if calls == [] then []
    else
      var (h, junk) := (calls[0].h, calls[0].junk);
      [Chunk(h, BlockOf(rig, im, a, h), U.JunkOf(junk, rig.chan[a]))]
      + ChunksOf(rig, raw, ImageOf(rig, raw, im, d, h, junk), calls[1..], d + h, a)
  }

  /** Each amplifier's writer runs through its own chunks, undisturbed by the others. */
  lemma {:induction false} RunFrameIsRun<T>(es: seq<Ext<T>>, rig: Rig, raw: seq<T>, im: seq<T>, calls: seq<Call<T>>,
                                           d: nat, a: nat)
    requires CanRun(es, rig, raw, im, calls, d) && a < rig.N() && rig.amps[a].discard <= 0
    ensures |RunFrame(es, rig, raw, im, calls, d)| == rig.N()
    ensures Placed(es[a], rig.amps[a], ChannelOf(rig, raw, a), d)
    ensures Splits(rig.amps[a], ChunksOf(rig, raw, im, calls, d, a), rig.amps[a].nrows - d)
    ensures RunFrame(es, rig, raw, im, calls, d)[a]
         == Run(es[a], rig.amps[a], ChannelOf(rig, raw, a), ChunksOf(rig, raw, im, calls, d, a), d)
    decreases |calls|
  {
    hide Placed, ChannelOf, ImageOf, BlockOf, Rig.PerAmp, Write, Written, U.JunkOf, Turns;
    if calls != [] {
      CanRunOn(es, rig, raw, im, calls, d);
      var (es', im') := FirstWritten(es, rig, raw, im, calls, d);
      AmpSteps(es[a], rig, raw, im, d, calls[0].h, calls[0].junk, a);
      RunFrameIsRun(es', rig, raw, im', calls[1..], d + calls[0].h, a);
      var chunks := ChunksOf(rig, raw, im, calls, d, a);
      assert chunks[1..] == ChunksOf(rig, raw, im', calls[1..], d + calls[0].h, a);
    }
  }

  lemma {:induction false} DiscardedStays<T>(es: seq<Ext<T>>, rig: Rig, raw: seq<T>, im: seq<T>, calls: seq<Call<T>>,
                                            d: nat, a: nat)
    requires CanRun(es, rig, raw, im, calls, d) && a < rig.N() && rig.amps[a].discard > 0
    ensures |RunFrame(es, rig, raw, im, calls, d)| == rig.N() == |es|
    ensures RunFrame(es, rig, raw, im, calls, d)[a] == es[a]
    decreases |calls|
  {
    hide WriteAll, ImageOf, Placed, ChannelOf, Rig.PerAmp;
    if calls != [] {
      CanRunOn(es, rig, raw, im, calls, d);
      var (es', im') := FirstWritten(es, rig, raw, im, calls, d);
      DiscardedStays(es', rig, raw, im', calls[1..], d + calls[0].h, a);
    }
  }

  /** Every chunk of the frame is turned exactly for this amplifier, or needs no turning. */
  predicate CallsTurn<T>(amp: Amp, calls: seq<Call<T>>) {
    forall i :: 0 <= i < |calls| ==> Turns(amp, calls[i].h)
  }

  lemma {:induction false} ChunksTurnIff<T>(rig: Rig, raw: seq<T>, im: seq<T>, calls: seq<Call<T>>, d: nat, a: nat)
    requires Frame(rig, raw, im) && d <= rig.nrows && RowSplit(calls, rig.nrows - d) && a < rig.N()
    ensures AllTurn(rig.amps[a], ChunksOf(rig, raw, im, calls, d, a)) <==> CallsTurn(rig.amps[a], calls)
    decreases |calls|
  {
    hide ImageOf, BlockOf, Turns, Rig.PerAmp, U.JunkOf;
    if calls != [] {
      var (h, junk) := (calls[0].h, calls[0].junk);
      var im' := ImageOf(rig, raw, im, d, h, junk);
      ChunksTurnIff(rig, raw, im', calls[1..], d + h, a);
      var chunks, rest := ChunksOf(rig, raw, im, calls, d, a), ChunksOf(rig, raw, im', calls[1..], d + h, a);
      assert chunks[0].h == h && chunks[1..] == rest;
      RestTurns(rig.amps[a], chunks);
      RestCallsTurn(rig.amps[a], calls);
    }
  }

  lemma RestCallsTurn<T>(amp: Amp, calls: seq<Call<T>>)
    requires calls != []
    ensures CallsTurn(amp, calls) <==> Turns(amp, calls[0].h) && CallsTurn(amp, calls[1..])
  {
    hide Turns;
    assert forall i :: 0 < i < |calls| ==> calls[1..][i - 1] == calls[i];
    assert forall i :: 0 <= i < |calls| - 1 ==> calls[1..][i] == calls[i + 1];
  }

  /**
   * End to end in multi-extension mode: for every row-aligned split of the raw frame into chunks that can be
   * turned exactly, and any contents of the image buffer, a kept amplifier's extension ends as its own read
   * channel, unscrambled and turned in one piece.
   */
  lemma FrameLands<T>(es: seq<Ext<T>>, rig: Rig, raw: seq<T>, im: seq<T>, calls: seq<Call<T>>, d: nat, a: nat)
    requires CanRun(es, rig, raw, im, calls, d) && a < rig.N() && rig.amps[a].discard <= 0
    requires InExtension(es[a], rig.amps[a], ChannelOf(rig, raw, a), d)
    requires CallsTurn(rig.amps[a], calls)
    ensures |RunFrame(es, rig, raw, im, calls, d)| == rig.N()
    ensures RunFrame(es, rig, raw, im, calls, d)[a].ext == WholeImage(rig.amps[a], ChannelOf(rig, raw, a))
  {
    hide WholeImage, RunFrame, Run, AllTurn, CallsTurn, InExtension, Placed, Splits, ChunksOf;
    ChunksTurnIff(rig, raw, im, calls, d, a);
    RunFrameIsRun(es, rig, raw, im, calls, d, a);
    ExtensionLands(es[a], rig.amps[a], ChannelOf(rig, raw, a), ChunksOf(rig, raw, im, calls, d, a), d);
  }

  lemma JunkSizes<T>(es: seq<Ext<T>>, rig: Rig, raw: seq<T>, im: seq<T>, calls: seq<Call<T>>, d: nat, a: nat)
    requires CanRun(es, rig, raw, im, calls, d) && a < rig.N()
    ensures Frame(rig, raw, im) && rig.Valid() && |raw| == rig.PerAmp(rig.nrows) * rig.N()
    ensures d <= rig.nrows == rig.amps[a].nrows && RowSplit(calls, rig.nrows - d)
    ensures Regular(rig.amps[a]) && |ChannelOf(rig, raw, a)| == rig.amps[a].Ncols() * rig.amps[a].nrows
  {
    hide InFrame;
    ChannelSize(rig, raw, a);
  }

  /**
   * In no chunk that is not turned exactly does the junk happen to be the pixel that belongs in its last cell. The
   * sizes named before it hold in every run, by RunFrameIsRun and JunkSizes.
   */
  ghost predicate FrameJunkShows<T>(rig: Rig, raw: seq<T>, im: seq<T>, calls: seq<Call<T>>, d: nat, a: nat)
    requires Frame(rig, raw, im) && d <= rig.nrows && RowSplit(calls, rig.nrows - d) && a < rig.N()
  {
    hide Rig.PerAmp, RowSplit, Splits;
    var (amp, chan, chunks) := (rig.amps[a], ChannelOf(rig, raw, a), ChunksOf(rig, raw, im, calls, d, a));
    && Regular(amp) && |chan| == amp.Ncols() * amp.nrows && d <= amp.nrows && Splits(amp, chunks, amp.nrows - d)
    && JunkShows(amp, chan, chunks, d)
  }

  /**
   * Exactly which splits land: those whose chunks are all turned exactly. In any other split a cell of the
   * extension keeps what some copy was made with, so it ends right only if that happens to be the right pixel.
   */
  lemma FrameLandsIff<T>(es: seq<Ext<T>>, rig: Rig, raw: seq<T>, im: seq<T>, calls: seq<Call<T>>, d: nat, a: nat)
    requires CanRun(es, rig, raw, im, calls, d) && a < rig.N() && rig.amps[a].discard <= 0
    requires InExtension(es[a], rig.amps[a], ChannelOf(rig, raw, a), d)
    requires FrameJunkShows(rig, raw, im, calls, d, a)
    ensures |RunFrame(es, rig, raw, im, calls, d)| == rig.N()
    ensures RunFrame(es, rig, raw, im, calls, d)[a].ext == WholeImage(rig.amps[a], ChannelOf(rig, raw, a))
            <==> CallsTurn(rig.amps[a], calls)
  {
    hide WholeImage, RunFrame, Run, AllTurn, CallsTurn, InExtension, Placed, Splits, ChunksOf, JunkShows;
    ChunksTurnIff(rig, raw, im, calls, d, a);
    RunFrameIsRun(es, rig, raw, im, calls, d, a);
    ExtensionLandsIff(es[a], rig.amps[a], ChannelOf(rig, raw, a), ChunksOf(rig, raw, im, calls, d, a), d);
  }

  /** Set-up starts every extension. */
  lemma NewFrame<T>(rig: Rig, raw: seq<T>, zero: T, a: nat)
    requires rig.Valid() && |raw| == rig.PerAmp(rig.nrows) * rig.N()
    ensures InFrame(NewExtensions(rig, zero), rig, raw, 0)
    ensures a < rig.N() ==> InExtension(NewExtensions(rig, zero)[a], rig.amps[a], ChannelOf(rig, raw, a), 0)
  {
    hide InExtension, Placed, ChannelOf;
    forall a: nat | a < rig.N()
      ensures InExtension(NewExtensions(rig, zero)[a], rig.amps[a], ChannelOf(rig, raw, a), 0)
      ensures Placed(NewExtensions(rig, zero)[a], rig.amps[a], ChannelOf(rig, raw, a), 0)
    {
      ChannelSize(rig, raw, a);
      NewExtension(rig.amps[a], ChannelOf(rig, raw, a), zero);
      StartsPlaced(NewExtensions(rig, zero)[a], rig.amps[a], ChannelOf(rig, raw, a));
    }
  }

  lemma StartsPlaced<T>(e: Ext<T>, amp: Amp, chan: seq<T>)
    requires InExtension(e, amp, chan, 0)
    ensures Placed(e, amp, chan, 0)
  {
  }

  function NewExtensions<T>(rig: Rig, zero: T): (es: seq<Ext<T>>)
    ensures |es| == rig.N()
  {
    var total := rig.PerAmp(rig.nrows);
    seq(rig.N(), a requires 0 <= a < rig.N() =>
      Ext(rig.amps[a], FirstColumn(rig.amps[a]), 0, seq(total, _ => zero), seq(total, _ => zero)))
  }

  lemma ChannelSize<T>(rig: Rig, raw: seq<T>, a: nat)
    requires rig.Valid() && |raw| == rig.PerAmp(rig.nrows) * rig.N() && a < rig.N()
    ensures |ChannelOf(rig, raw, a)| == rig.amps[a].Ncols() * rig.amps[a].nrows
  {
  }

  /** Raw pixel (y, x) of an amplifier's channel, in its finished extension. */
  lemma FinishedPixel<T>(rig: Rig, raw: seq<T>, a: nat, y: nat, x: nat)
    requires rig.Valid() && |raw| == rig.PerAmp(rig.nrows) * rig.N() && a < rig.N() && y < rig.nrows && x < rig.ncols
    ensures |ChannelOf(rig, raw, a)| == rig.amps[a].Ncols() * rig.amps[a].nrows
    ensures var p, k := FinalCell(rig.amps[a], y, x), rig.chan[a] + Cell(rig.ncols, y, x) * rig.N();
            && 0 <= p < rig.PerAmp(rig.nrows) && 0 <= k < |raw|
            && WholeImage(rig.amps[a], ChannelOf(rig, raw, a))[p] == raw[k]
  {
    hide WholeImage, Channel;
    ChannelSize(rig, raw, a);
    FinalPixel(rig.amps[a], ChannelOf(rig, raw, a), y, x);
    ChannelAt(raw, rig.N(), rig.chan[a], rig.PerAmp(rig.nrows), Cell(rig.ncols, y, x));
  }
}
