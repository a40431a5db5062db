/** The two libraries together: a raw chunk is unscrambled and handed to the writer, in either mode. */
module Pipeline {
  import opened Grid
  import opened Amplifiers
  import U = Unscramble
  import SingleImage
  import F = FrameAssembly
  import Extensions
  import E = ExtensionFrames
  import N = ExtensionNumbers

  // ---- single-extension mode ----

  lemma ChunkSizes(cam: F.Camera, h: nat)
    requires cam.Wired() && h <= cam.nrows
    ensures F.Pixels(cam, h) <= F.FramePixels(cam)
    ensures 0 <= cam.ncols * h && F.Pixels(cam, h) / cam.N() == cam.ncols * h
    ensures cam.ncols * h * cam.N() == cam.N() * (cam.ncols * h) == F.Pixels(cam, h)
  {
    F.ReadCount(cam, 0, h);
    F.ChunkInside(cam, 0, h);
  }

  lemma CameraIsMapped(cam: F.Camera)
    requires cam.Wired()
    ensures U.WellMapped(cam.amps, cam.physMap) && U.StaysInBlocks(cam.amps)
  {
  }

  /** Unscrambles a raw chunk and adds it to the frame: one step of FrameAssembly's runs. */
  method AcquireChunk<T(0)>(table: AmpTable, writer: SingleImage.SingleWriter<T>, raw: array<T>, im: array<T>,
                            ghost cam: F.Camera, ghost frame: seq<T>, ghost bg: seq<T>, ghost d: nat, ghost h: nat)
    requires table.Valid() && table.amps == cam.amps && table.physMap == cam.physMap
    requires raw != im && raw != writer.tmpptr && im != writer.tmpptr
    requires writer.totPixels == im.Length == F.FramePixels(cam) && writer.nzim >= 1
    requires F.InFrame(writer.Contents(), cam, frame, bg, d) && F.RoomForFrame(writer.Contents())
    requires h > 0 && d + h <= cam.nrows && raw[..] == F.ChunkOf(cam, frame, d, h)
    modifies im, writer, writer.tmpptr
    ensures SingleImage.CanWrite(old(writer.Contents()), cam.amps,
                                 F.Data(cam, old(im[..]), F.ChunkOf(cam, frame, d, h), h),
                                 F.Starts(cam, h), F.Pixels(cam, h), F.FramePixels(cam))
    ensures im[..] == F.Data(cam, old(im[..]), F.ChunkOf(cam, frame, d, h), h)
    ensures writer.Contents()
         == F.Acquire(old(writer.Contents()), cam, frame, old(im[..]), d, h, writer.nzim, writer.zero)
  {
    hide F.InFrame, F.ChunkOf, U.ImageAfter, U.WellMapped, U.StaysInBlocks, SingleImage.WriteChunk,
         SingleImage.CanWrite, F.RoomForFrame, F.Pixels, F.FramePixels, F.Data, F.Starts;
    ghost var before := im[..];
    ChunkReady(writer.Contents(), cam, frame, bg, before, d, h, writer.nzim, writer.zero);
    CameraIsMapped(cam);
    ghost var junk;
    var dataptr;
    dataptr, junk := U.UnscrambleImage(table, raw, im, raw.Length);
    UnscrambledIsData(cam, before, raw[..], h, junk);
    StartsAreBlocks(cam, h);
    writer.WriteImage(table.amps, im, dataptr, raw.Length);
  }

  lemma ChunkReady<T>(s: SingleImage.State<T>, cam: F.Camera, frame: seq<T>, bg: seq<T>, im: seq<T>, d: nat, h: nat,
                      nzim: int, zero: T)
    requires F.InFrame(s, cam, frame, bg, d) && F.RoomForFrame(s)
    requires |im| == F.FramePixels(cam) && h > 0 && d + h <= cam.nrows && nzim >= 1
    ensures cam.Valid() && |frame| == F.FramePixels(cam) && |F.ChunkOf(cam, frame, d, h)| == F.Pixels(cam, h)
    ensures SingleImage.CanWrite(s, cam.amps, F.Data(cam, im, F.ChunkOf(cam, frame, d, h), h), F.Starts(cam, h),
                                 F.Pixels(cam, h), F.FramePixels(cam))
    ensures F.Pixels(cam, h) <= F.FramePixels(cam)
  {
    hide F.ChunkOf, F.Data, F.Pixels, F.FramePixels, SingleImage.CanWrite;
    ChunkSizes(cam, h);
    F.ChunkStep(s, cam, frame, bg, im, d, h, nzim, zero);
  }

  /** Upright amplifiers are not turned, so no copy is made. */
  lemma UnscrambledIsData<T>(cam: F.Camera, im: seq<T>, chunk: seq<T>, h: nat, junk: seq<seq<T>>)
    requires cam.Wired() && h <= cam.nrows && |chunk| == F.Pixels(cam, h) && |im| == F.FramePixels(cam)
    ensures var m := U.PerBlock(|chunk|, cam.N());
            && U.WellMapped(cam.amps, cam.physMap) && m * cam.N() <= |chunk| && cam.N() * m <= |im|
            && F.Data(cam, im, chunk, h) == U.ImageAfter(im, chunk, cam.amps, cam.physMap, m, cam.N(), junk)
  {
    hide U.ImageAfter;
    ChunkSizes(cam, h);
    CameraIsMapped(cam);
    AllUpright(cam);
    U.SameJunk(im, chunk, cam.amps, cam.physMap, cam.ncols * h, cam.N(), [], junk);
  }

  lemma AllUpright(cam: F.Camera)
    requires cam.Wired()
    ensures forall i :: 0 <= i < cam.N() ==> cam.amps[cam.physMap[i]].rotate == 0
  {
    forall i | 0 <= i < cam.N()
      ensures cam.amps[cam.physMap[i]].rotate == 0
    {
      assert cam.Plain(cam.amps[cam.physMap[i]]);
    }
  }

  lemma StartsAreBlocks(cam: F.Camera, h: nat)
    requires cam.Wired() && h <= cam.nrows
    ensures var m := U.PerBlock(F.Pixels(cam, h), cam.N());
            F.Starts(cam, h) == seq(cam.N(), a requires a >= 0 => var p: nat := U.Start(a, m); p)
  {
    ChunkSizes(cam, h);
  }

  // ---- multi-extension mode ----

  /** Every writer has its own two buffers, and none of them is the image buffer. */
  ghost predicate Separate<T(0)>(writers: seq<Extensions.ExtensionWriter<T>>, data: array<T>) {
    && (forall i :: 0 <= i < |writers| ==>
          writers[i].tmpptr != data && writers[i].ext != data && writers[i].tmpptr != writers[i].ext)
    && (forall i, j :: 0 <= i < |writers| && 0 <= j < |writers| && i != j ==>
          && writers[i] != writers[j]
          && writers[i].tmpptr != writers[j].tmpptr && writers[i].ext != writers[j].ext
          && writers[i].tmpptr != writers[j].ext)
  }

  /** One kept amplifier's pass, seen from all of them. */
  method WriteOne<T(0)>(writers: seq<Extensions.ExtensionWriter<T>>, i: nat, data: array<T>, from: nat, m: nat)
    requires Separate(writers, data) && i < |writers|
    requires from + m <= data.Length && Extensions.CanWrite(writers[i].Contents(), writers[i].perAmp, m)
    modifies writers[i], writers[i].tmpptr, writers[i].ext
    ensures data[..] == old(data[..])
    ensures writers[i].Contents()
         == Extensions.Write(old(writers[i].Contents()), writers[i].perAmp, data[from..from + m])
    ensures forall k :: 0 <= k < |writers| && k != i ==> writers[k].Contents() == old(writers[k].Contents())
  {
    hide Extensions.Write, Extensions.CanWrite, Extensions.ExtensionWriter.Contents;
    writers[i].WriteBlock(data, from, m);
  }

  function AmpsOf<T(0)>(writers: seq<Extensions.ExtensionWriter<T>>): (amps: seq<Amp>)
    ensures |amps| == |writers|
  {
    seq(|writers|, i requires 0 <= i < |writers| => writers[i].amp)
  }

  lemma AmpOf<T(0)>(writers: seq<Extensions.ExtensionWriter<T>>, i: nat)
    requires i < |writers|
    ensures AmpsOf(writers)[i] == writers[i].amp
  {
  }

  /**
   * The loop of GF_writeImage_Multiple over the amplifiers; each block has m pixels. units says which header
   * unit each kept amplifier's extension is; ExtensionNumbers says when these are different.
   */
  method WriteMultiple<T(0)>(writers: seq<Extensions.ExtensionWriter<T>>, extension: seq<int>, data: array<T>,
                             dataptr: seq<nat>, m: nat) returns (units: seq<int>, numAmps: nat)
    requires Separate(writers, data) && |dataptr| == |writers| == |extension|
    requires forall i :: 0 <= i < |writers| && writers[i].amp.discard <= 0 ==>
               dataptr[i] + m <= data.Length && Extensions.CanWrite(writers[i].Contents(), writers[i].perAmp, m)
    modifies writers, set w | w in writers :: w.tmpptr, set w | w in writers :: w.ext
    ensures data[..] == old(data[..])
    ensures |units| == |writers| && numAmps == |writers| - N.Discarded(AmpsOf(writers), |writers|)
    ensures forall i :: 0 <= i < |writers| && writers[i].amp.discard <= 0 ==>
              units[i] == N.Unit(extension, AmpsOf(writers), i)
    ensures forall i :: 0 <= i < |writers| && writers[i].amp.discard <= 0 ==>
              writers[i].Contents()
              == Extensions.Write(old(writers[i].Contents()), writers[i].perAmp, data[dataptr[i]..dataptr[i] + m])
    ensures forall i :: 0 <= i < |writers| && writers[i].amp.discard > 0 ==>
              writers[i].Contents() == old(writers[i].Contents())
  {
    hide Extensions.Write, Extensions.CanWrite, Extensions.ExtensionWriter.Contents, N.Discarded, N.Unit, AmpsOf,
         Separate;
    ghost var amps := AmpsOf(writers);
    var i, discarded := 0, 0;
    units := [];
    N.NoneYet(amps);
    while i < |writers|
      invariant 0 <= i <= |writers| && |units| == i && discarded == N.Discarded(amps, i)
      invariant forall k :: 0 <= k < i && writers[k].amp.discard <= 0 ==> units[k] == N.Unit(extension, amps, k)
      invariant data[..] == old(data[..])
      invariant forall k :: 0 <= k < i && writers[k].amp.discard <= 0 ==>
                  writers[k].Contents()
                  == Extensions.Write(old(writers[k].Contents()), writers[k].perAmp,
                                      old(data[dataptr[k]..dataptr[k] + m]))
      invariant forall k :: 0 <= k < i && writers[k].amp.discard > 0 ==>
                  writers[k].Contents() == old(writers[k].Contents())
      invariant forall k :: i <= k < |writers| ==> writers[k].Contents() == old(writers[k].Contents())
    {
      N.NextUnit(extension, amps, i);
      assert amps[i] == writers[i].amp by { AmpOf(writers, i); }
      if writers[i].amp.discard <= 0 {
        WriteOne(writers, i, data, dataptr[i], m);
        units := units + [extension[i] + 2 - discarded];
      } else {
        discarded := discarded + 1;
        units := units + [0];
      }
      i := i + 1;
    }
    numAmps := |writers| - discarded;
  }

  /** What all writers hold. */
  ghost function States<T(0)>(writers: seq<Extensions.ExtensionWriter<T>>): (es: seq<Extensions.Ext<T>>)
    reads writers, set w | w in writers :: w.tmpptr, set w | w in writers :: w.ext
    ensures |es| == |writers|
    ensures forall i :: 0 <= i < |writers| ==> es[i] == writers[i].Contents()
  {
    seq(|writers|, i requires 0 <= i < |writers|
                     reads writers, set w | w in writers :: w.tmpptr, set w | w in writers :: w.ext =>
      writers[i].Contents())
  }

  /**
   * Unscrambles a raw chunk and adds it to every kept amplifier's extension: one step of ExtensionFrames' runs.
   * junk is what the copies were made with that the rotated blocks were turned in.
   */
  method AcquireExtensions<T(0)>(table: AmpTable, writers: seq<Extensions.ExtensionWriter<T>>, extension: seq<int>,
                                 raw: array<T>, im: array<T>,
                                 ghost rig: E.Rig, ghost frame: seq<T>, ghost d: nat, ghost h: nat)
      returns (units: seq<int>, ghost junk: seq<seq<T>>)
    requires table.Valid() && table.amps == rig.amps && table.physMap == rig.physMap
    requires raw != im && Separate(writers, im) && E.Frame(rig, frame, im[..]) && d + h <= rig.nrows
    requires |writers| == rig.N() == |extension|
    requires forall a :: 0 <= a < rig.N() ==>
               writers[a].amp == rig.amps[a] && writers[a].perAmp == rig.PerAmp(rig.nrows)
    requires E.InFrame(States(writers), rig, frame, d)
    requires rig.PerAmp(d) + rig.PerAmp(h) <= rig.PerAmp(rig.nrows)
    requires raw[..] == Extensions.RawRun(frame, rig.N(), rig.PerAmp(rig.nrows), rig.PerAmp(d), rig.PerAmp(h))
    modifies im, writers, set w | w in writers :: w.tmpptr, set w | w in writers :: w.ext
    ensures im[..] == E.ImageOf(rig, frame, old(im[..]), d, h, junk)
    ensures States(writers) == E.WriteAll(old(States(writers)), rig, frame, old(im[..]), d, h, junk)
    ensures |units| == rig.N()
    ensures forall a :: 0 <= a < rig.N() && rig.amps[a].discard <= 0 ==> units[a] == N.Unit(extension, rig.amps, a)
  {
    hide Extensions.RawRun, U.ImageAfter, U.WellMapped, U.StaysInBlocks, E.InFrame, E.WriteAll, E.ImageOf, E.Frame,
         E.BlockOf, E.Rig.PerAmp, Extensions.CanWrite, Extensions.Write, Extensions.ExtensionWriter.Contents;
    ghost var before, states := im[..], States(writers);
    RigIsMapped(rig, frame, before);
    var dataptr;
    ImageIsUnscrambled(rig, frame, before, d, h, []);
    dataptr, junk := U.UnscrambleImage(table, raw, im, raw.Length);
    ImageIsUnscrambled(rig, frame, before, d, h, junk);
    assert States(writers) == states;
    WritersCanWrite(rig, frame, before, d, h, states);
    var numAmps;
    units, numAmps := WriteMultiple(writers, extension, im, dataptr, U.PerBlock(raw.Length, |table.amps|));
    assert AmpsOf(writers) == rig.amps;
    AllWritten(rig, frame, before, d, h, junk, states, States(writers), im[..]);
  }

  lemma RigIsMapped<T>(rig: E.Rig, frame: seq<T>, im: seq<T>)
    requires E.Frame(rig, frame, im)
    ensures U.WellMapped(rig.amps, rig.physMap) && U.StaysInBlocks(rig.amps)
  {
  }

  lemma ImageIsUnscrambled<T>(rig: E.Rig, frame: seq<T>, im: seq<T>, d: nat, h: nat, junk: seq<seq<T>>)
    requires E.Frame(rig, frame, im) && d + h <= rig.nrows
    requires U.WellMapped(rig.amps, rig.physMap)
    ensures rig.N() > 0 && rig.PerAmp(d) + rig.PerAmp(h) <= rig.PerAmp(rig.nrows)
        && rig.N() * rig.PerAmp(rig.nrows) <= |im|
    ensures var (raw, m) := (Extensions.RawRun(frame, rig.N(), rig.PerAmp(rig.nrows), rig.PerAmp(d), rig.PerAmp(h)),
                             rig.PerAmp(h));
            && U.PerBlock(|raw|, rig.N()) == m && |raw| <= |im| && m * rig.N() <= |raw| && rig.N() * m <= |im|
            && E.ImageOf(rig, frame, im, d, h, junk)
            == U.ImageAfter(im, raw, rig.amps, rig.physMap, m, rig.N(), junk)
    ensures forall a: nat :: a < rig.N() ==> U.Start(a, rig.PerAmp(h)) + rig.PerAmp(h) <= |im|
  {
    hide E.Rig.PerAmp, U.ImageAfter, Extensions.RawRun;
    E.RowsFit(rig, d, h);
    E.ChunkInside(rig.N(), rig.PerAmp(h), rig.PerAmp(rig.nrows));
    CellSplit(rig.N(), rig.PerAmp(h), 0);
    forall a: nat | a < rig.N()
      ensures U.Start(a, rig.PerAmp(h)) + rig.PerAmp(h) <= |im|
    {
      E.BlockFits(rig, a, h);
    }
  }

  lemma WritersCanWrite<T>(rig: E.Rig, frame: seq<T>, im: seq<T>, d: nat, h: nat, es: seq<Extensions.Ext<T>>)
    requires E.Frame(rig, frame, im) && E.InFrame(es, rig, frame, d) && d + h <= rig.nrows
    ensures |es| == rig.N()
    ensures forall a :: 0 <= a < rig.N() && rig.amps[a].discard <= 0 ==>
              Extensions.CanWrite(es[a], rig.PerAmp(rig.nrows), rig.PerAmp(h))
  {
    hide Extensions.CanWrite, Extensions.Write;
    E.EveryAmpSteps(es, rig, frame, im, d, h, []);
  }

  lemma AllWritten<T>(rig: E.Rig, frame: seq<T>, im: seq<T>, d: nat, h: nat, junk: seq<seq<T>>,
                      es: seq<Extensions.Ext<T>>, es': seq<Extensions.Ext<T>>, data: seq<T>)
    requires E.Frame(rig, frame, im) && E.InFrame(es, rig, frame, d) && d + h <= rig.nrows && |es'| == |es|
    requires data == E.ImageOf(rig, frame, im, d, h, junk)
    requires forall a: nat :: a < rig.N() ==> U.Start(a, rig.PerAmp(h)) + rig.PerAmp(h) <= |data|
    requires forall a :: 0 <= a < rig.N() && rig.amps[a].discard <= 0 ==>
               && Extensions.CanWrite(es[a], rig.PerAmp(rig.nrows), rig.PerAmp(h))
               && es'[a] == Extensions.Write(es[a], rig.PerAmp(rig.nrows),
                                             data[U.Start(a, rig.PerAmp(h))..U.Start(a, rig.PerAmp(h)) + rig.PerAmp(h)])
    requires forall a :: 0 <= a < rig.N() && rig.amps[a].discard > 0 ==> es'[a] == es[a]
    ensures es' == E.WriteAll(es, rig, frame, im, d, h, junk)
  {
    hide Extensions.CanWrite, Extensions.Write, E.ImageOf, Extensions.Placed;
  }
}
