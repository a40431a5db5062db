/** readNframes: copying a frame out of the DMA buffer while it arrives, and publishing the progress. */
module Readout {
  import opened Grid

  const MAX_SAME := 3000  // polls without progress before the readout times out

  /** Pixels per frame, pixels per display buffer, pixels received before this frame, last frame of the DMA buffer. */
  datatype Config = Config(pixels: nat, buffSize: nat, totPixRec: nat, lastInBuffer: bool)
  {
    ghost predicate Valid() { pixels > 0 && buffSize > 0 }
    function Buffers(): nat
      requires buffSize > 0
    {
      (pixels + buffSize - 1) / buffSize
    }
  }

  /** What one look at the driver shows: its pixel counter, and the frame's part of the DMA memory. */
  datatype Poll<T> = Poll(counter: int, memory: seq<T>)

  datatype Status = Reading | Complete | TimedOut | Failed(code: int)

  datatype Reader<T> = Reader(status: Status, oldpix: nat, prevpix: int, tout: nat, published: nat, dst: seq<T>)

  /** get_readout_progress. */
  function Progress(c: Config, counter: int): int {
    if counter < 0 then counter
    else if counter - c.totPixRec < 0 then c.pixels
    else counter - c.totPixRec
  }

  /** The pixel count the loop acts on: no more than a frame, and all of it once the counter has gone back. */
  function Arrived(c: Config, oldpix: nat, progress: int): int {
    var pix := if progress > c.pixels then c.pixels else progress;
    if pix < oldpix && c.lastInBuffer then c.pixels else pix
  }

  /** Whether the loop copies: a display buffer's worth has arrived, or the frame is complete. */
  predicate Copies(c: Config, oldpix: nat, pix: int) {
    pix == c.pixels || pix - oldpix >= c.buffSize
  }

  /** memcpy of pixels from..to. */
  function Copied<T>(dst: seq<T>, memory: seq<T>, from: nat, to: nat): (r: seq<T>)
    requires from <= to <= |memory| && to <= |dst|
    ensures |r| == |dst|
  {
    Splice(dst, from, memory[from..to])
  }

  predicate TimesOut<T>(r: Reader<T>, progress: int) {
    progress == r.prevpix && r.tout > MAX_SAME
  }

  /** The first half of a pass: the look, and the copy when there is one; nothing is published yet. */
  function CopyHalf<T>(c: Config, r: Reader<T>, poll: Poll<T>): (r': Reader<T>)
    requires c.Valid() && r.status == Reading && r.oldpix <= c.pixels == |poll.memory| == |r.dst|
    ensures |r'.dst| == |r.dst| && r'.oldpix <= c.pixels && r'.published == r.published
  {
    var progress := Progress(c, poll.counter);
    if TimesOut(r, progress) then r.(status := TimedOut, tout := r.tout + 1)
    else
      var waited := r.(prevpix := progress, tout := if progress == r.prevpix then r.tout + 1 else 0);
      if progress < 0 then waited.(status := Failed(progress))
      else
        var pix := Arrived(c, r.oldpix, progress);
        if Copies(c, r.oldpix, pix) then waited.(oldpix := pix, dst := Copied(r.dst, poll.memory, r.oldpix, pix))
        else waited
  }

  /** The second half: the buffers that have been copied are published, and a whole frame is reported. */
  function PublishHalf<T>(c: Config, r: Reader<T>): (r': Reader<T>)
    requires c.Valid()
    ensures r'.dst == r.dst && r'.oldpix == r.oldpix
  {
    if r.oldpix == c.pixels then r.(status := Complete, published := c.Buffers())
    else r.(published := r.oldpix / c.buffSize)
  }

  /** Whether a pass that has not ended the readout has copied. */
  predicate HasCopied<T>(c: Config, r: Reader<T>, poll: Poll<T>) {
    var progress := Progress(c, poll.counter);
    !TimesOut(r, progress) && progress >= 0 && Copies(c, r.oldpix, Arrived(c, r.oldpix, progress))
  }

  /** One pass of the polling loop. */
  function Step<T>(c: Config, r: Reader<T>, poll: Poll<T>): (r': Reader<T>)
    requires c.Valid() && r.status == Reading && r.oldpix <= c.pixels == |poll.memory| == |r.dst|
    ensures |r'.dst| == |r.dst| && r'.oldpix <= c.pixels
  {
    var halfway := CopyHalf(c, r, poll);
    if HasCopied(c, r, poll) then PublishHalf(c, halfway) else halfway
  }

  /** Any number of polls; a finished readout stays as it is. */
  function Run<T>(c: Config, r: Reader<T>, polls: seq<Poll<T>>): (r': Reader<T>)
    requires c.Valid() && r.oldpix <= c.pixels == |r.dst|
    requires forall p :: p in polls ==> |p.memory| == c.pixels
    ensures |r'.dst| == |r.dst| && r'.oldpix <= c.pixels
  {
    if polls == [] then r
    else
      var before := Run(c, r, polls[..|polls| - 1]);
      assert polls[|polls| - 1] in polls;
      if before.status == Reading then Step(c, before, polls[|polls| - 1]) else before
  }

  /** Published buffers have been copied. */
  ghost predicate Safe<T>(c: Config, r: Reader<T>, frame: seq<T>)
    requires c.Valid()
  {
    && |r.dst| == |frame| == c.pixels && r.oldpix <= c.pixels
    && r.dst[..r.oldpix] == frame[..r.oldpix]
    && (if r.status == Complete then r.oldpix == c.pixels && r.published == c.Buffers()
        else r.published * c.buffSize <= r.oldpix)
  }

  lemma WholeBuffers(pixels: nat, buffSize: nat)
    requires buffSize > 0
    ensures 0 <= pixels / buffSize && pixels / buffSize * buffSize <= pixels
  {
  }

  lemma CopyAgreesIff<T>(dst: seq<T>, memory: seq<T>, frame: seq<T>, from: nat, to: nat)
    requires from <= to <= |memory| && |memory| == |dst| == |frame|
    requires dst[..from] == frame[..from]
    ensures Copied(dst, memory, from, to)[..to] == frame[..to] <==> memory[from..to] == frame[from..to]
  {
    var after := Copied(dst, memory, from, to);
    assert after[..from] == dst[..from];
    assert after[from..to] == memory[from..to];
    assert after[..to] == after[..from] + after[from..to];
    assert frame[..to] == frame[..from] + frame[from..to];
  }

  /** Halfway through a pass the reader is safe exactly when what has been copied, if anything, is the frame's. */
  lemma HalfwayIsSafeIff<T>(c: Config, r: Reader<T>, poll: Poll<T>, frame: seq<T>)
    requires c.Valid() && Safe(c, r, frame) && r.status == Reading && |poll.memory| == c.pixels
    ensures Safe(c, CopyHalf(c, r, poll), frame) <==>
            (HasCopied(c, r, poll) ==>
               var pix := Arrived(c, r.oldpix, Progress(c, poll.counter));
               poll.memory[r.oldpix..pix] == frame[r.oldpix..pix])
  {
    hide Copied, Config.Buffers;
    if HasCopied(c, r, poll) {
      CopyAgreesIff(r.dst, poll.memory, frame, r.oldpix, Arrived(c, r.oldpix, Progress(c, poll.counter)));
    }
  }

  /** Publishing what has been copied adds nothing that is not there. */
  lemma PublishingIsSafeIff<T>(c: Config, r: Reader<T>, frame: seq<T>)
    requires c.Valid() && r.status == Reading && r.published * c.buffSize <= r.oldpix
    ensures Safe(c, PublishHalf(c, r), frame) <==> Safe(c, r, frame)
  {
    hide Config.Buffers;
    WholeBuffers(r.oldpix, c.buffSize);
  }

  /** Published before the copy, a buffer would be announced that is not there yet. */
  lemma PublishingFirstIsUnsafe<T>(c: Config, r: Reader<T>, pix: nat, frame: seq<T>)
    requires c.Valid() && Safe(c, r, frame) && r.status == Reading && pix - r.oldpix >= c.buffSize
    ensures !Safe(c, r.(published := pix / c.buffSize), frame)
  {
    LastBuffer(pix, c.buffSize);
  }

  lemma LastBuffer(pixels: nat, buffSize: nat)
    requires buffSize > 0
    ensures pixels / buffSize * buffSize > pixels - buffSize
  {
  }

  /** A pass of the loop keeps the reader safe exactly when what it copies, if anything, is the frame's. */
  lemma StepIsSafeIff<T>(c: Config, r: Reader<T>, poll: Poll<T>, frame: seq<T>)
    requires c.Valid() && Safe(c, r, frame) && r.status == Reading && |poll.memory| == c.pixels
    ensures Safe(c, Step(c, r, poll), frame) <==>
            (HasCopied(c, r, poll) ==>
               var pix := Arrived(c, r.oldpix, Progress(c, poll.counter));
               poll.memory[r.oldpix..pix] == frame[r.oldpix..pix])
  {
    hide Copied, Config.Buffers, PublishHalf;
    HalfwayIsSafeIff(c, r, poll, frame);
    if HasCopied(c, r, poll) {
      PublishingIsSafeIff(c, CopyHalf(c, r, poll), frame);
    }
  }

  lemma SliceOfSuffix<T>(a: seq<T>, b: seq<T>, from: nat, lo: nat, hi: nat)
    requires from <= lo <= hi <= |a| && |a| == |b| && a[from..] == b[from..]
    ensures a[lo..hi] == b[lo..hi]
  {
    forall p | lo <= p < hi
      ensures a[p] == b[p]
    {
      assert a[from..][p - from] == b[from..][p - from];
    }
  }

  lemma SliceOfPrefix<T>(a: seq<T>, b: seq<T>, n: nat, lo: nat, hi: nat)
    requires lo <= hi <= n <= |a| && |a| == |b| && a[..n] == b[..n]
    ensures a[lo..hi] == b[lo..hi]
  {
    assert a[lo..hi] == a[..n][lo..hi];
    assert b[lo..hi] == b[..n][lo..hi];
  }

  function NewReader<T>(dst: seq<T>): Reader<T> {
    Reader(Reading, 0, 0, 0, 0, dst)
  }

  lemma NewReaderIsSafe<T>(c: Config, dst: seq<T>, frame: seq<T>)
    requires c.Valid() && |dst| == |frame| == c.pixels
    ensures Safe(c, NewReader(dst), frame)
  {
  }

  // ---- the driver's side ----

  /** The pixels of this frame's slot that have been transferred when the counter stands there. */
  function Count<T>(c: Config, poll: Poll<T>): (n: nat)
    ensures n <= c.pixels
  {
    if poll.counter <= c.totPixRec then 0
    else if poll.counter - c.totPixRec > c.pixels then c.pixels
    else poll.counter - c.totPixRec
  }

  /** While the frame is being transferred its first pixels are in memory. Negative counters report errors. */
  ghost predicate InPass<T>(c: Config, poll: Poll<T>, frame: seq<T>)
    requires |frame| == |poll.memory| == c.pixels
  {
    poll.counter >= 0 ==>
      c.totPixRec <= poll.counter && poll.memory[..Count(c, poll)] == frame[..Count(c, poll)]
  }

  /** In the next pass over the DMA buffer a later frame replaces the first pixels of the slot. */
  ghost predicate InNextPass<T>(c: Config, poll: Poll<T>, frame: seq<T>)
    requires |frame| == |poll.memory| == c.pixels
  {
    poll.counter >= 0 ==> poll.memory[Count(c, poll)..] == frame[Count(c, poll)..]
  }

  /** A monotone transfer of one frame, looked at any number of times; looks from number w on come in the next pass. */
  ghost predicate Transfer<T>(c: Config, polls: seq<Poll<T>>, w: nat, frame: seq<T>) {
    && |frame| == c.pixels && w <= |polls|
    && (forall p :: p in polls ==> |p.memory| == c.pixels)
    && (forall i, j :: 0 <= i < j < w ==> polls[i].counter <= polls[j].counter || polls[j].counter < 0)
    && (forall i :: 0 <= i < w ==> polls[i] in polls && InPass(c, polls[i], frame))
    && (forall i :: w <= i < |polls| ==> polls[i] in polls && InNextPass(c, polls[i], frame))
  }

  /** What the last look before the next pass showed. */
  function Seen<T>(c: Config, polls: seq<Poll<T>>, w: nat): nat
    requires w <= |polls|
  {
    if w == 0 then 0 else Count(c, polls[w - 1])
  }

  /** The later frame has not replaced more than the reader had seen of its own. */
  ghost predicate NotOvertaken<T>(c: Config, polls: seq<Poll<T>>, w: nat)
    requires w <= |polls|
  {
    forall i :: w <= i < |polls| ==> Count(c, polls[i]) <= Seen(c, polls, w)
  }

  /** A reader that is still reading has copied all it has seen but less than a display buffer. */
  ghost predicate Tracks<T>(c: Config, r: Reader<T>, seen: nat) {
    r.status == Reading ==> r.oldpix <= seen < c.pixels && seen < r.oldpix + c.buffSize
  }

  lemma InPassStep<T>(c: Config, r: Reader<T>, poll: Poll<T>, frame: seq<T>, seen: nat)
    requires c.Valid() && Safe(c, r, frame) && r.status == Reading && Tracks(c, r, seen)
    requires |poll.memory| == c.pixels && InPass(c, poll, frame) && (poll.counter >= 0 ==> seen <= Count(c, poll))
    ensures Safe(c, Step(c, r, poll), frame)
    ensures Tracks(c, Step(c, r, poll), Count(c, poll))
  {
    StepIsSafeIff(c, r, poll, frame);
    var progress := Progress(c, poll.counter);
    if progress >= 0 {
      assert Arrived(c, r.oldpix, progress) == Count(c, poll);
      SliceOfPrefix(poll.memory, frame, Count(c, poll), r.oldpix, Count(c, poll));
    }
  }

  lemma NextPassStep<T>(c: Config, r: Reader<T>, poll: Poll<T>, frame: seq<T>, seen: nat)
    requires c.Valid() && Safe(c, r, frame) && r.status == Reading && Tracks(c, r, seen)
    requires |poll.memory| == c.pixels && InNextPass(c, poll, frame) && Count(c, poll) <= seen
    ensures Safe(c, Step(c, r, poll), frame)
    ensures Tracks(c, Step(c, r, poll), seen)
  {
    StepIsSafeIff(c, r, poll, frame);
    if poll.counter >= 0 && Count(c, poll) <= r.oldpix {
      SliceOfSuffix(poll.memory, frame, Count(c, poll), r.oldpix, c.pixels);
    }
  }

  lemma TransferSizes<T>(c: Config, polls: seq<Poll<T>>, w: nat, frame: seq<T>)
    requires Transfer(c, polls, w, frame)
    ensures |frame| == c.pixels && w <= |polls| && forall p :: p in polls ==> |p.memory| == c.pixels
  {
  }

  lemma TransferPrefix<T>(c: Config, polls: seq<Poll<T>>, w: nat, frame: seq<T>)
    requires Transfer(c, polls, w, frame) && NotOvertaken(c, polls, w) && polls != []
    ensures var (front, w') := (polls[..|polls| - 1], if w < |polls| then w else |polls| - 1);
            && Transfer(c, front, w', frame) && NotOvertaken(c, front, w')
            && (w < |polls| ==> Seen(c, front, w') == Seen(c, polls, w))
  {
    hide Transfer, InPass, InNextPass, Count;
    TransferSizes(c, polls, w, frame);
    var front, w' := polls[..|polls| - 1], if w < |polls| then w else |polls| - 1;
    FrontTransfer(c, polls, w, frame, front, w');
    assert w' > 0 ==> front[w' - 1] == polls[w' - 1];
    forall i | w' <= i < |front|
      ensures Count(c, front[i]) <= Seen(c, front, w')
    {
      assert front[i] == polls[i];
    }
  }

  lemma FrontTransfer<T>(c: Config, polls: seq<Poll<T>>, w: nat, frame: seq<T>, front: seq<Poll<T>>, w': nat)
    requires Transfer(c, polls, w, frame) && polls != []
    requires front == polls[..|polls| - 1] && w' == if w < |polls| then w else |polls| - 1
    ensures Transfer(c, front, w', frame)
  {
    hide InPass, InNextPass, Count;
    assert forall i :: 0 <= i < |front| ==> front[i] == polls[i] && front[i] in front;
    forall p | p in front
      ensures p in polls
    {
    }
  }

  lemma LastLook<T>(c: Config, polls: seq<Poll<T>>, w: nat, frame: seq<T>)
    requires Transfer(c, polls, w, frame) && NotOvertaken(c, polls, w) && polls != []
    ensures var (n, last) := (|polls| - 1, polls[|polls| - 1]);
            && |last.memory| == c.pixels == |frame| && last in polls
            && (w <= n ==> InNextPass(c, last, frame) && Count(c, last) <= Seen(c, polls, w))
            && (w > n ==> InPass(c, last, frame) && Seen(c, polls, w) == Count(c, last))
            && (w > n && last.counter >= 0 ==> Seen(c, polls[..n], n) <= Count(c, last))
  {
    hide InPass, InNextPass;
    var n := |polls| - 1;
    assert polls[n] in polls;
    assert n > 0 ==> polls[..n][n - 1] == polls[n - 1];
  }

  /**
   * Publish after copy: after any number of looks at a monotone transfer, whenever they come, the reader is
   * safe; also when the frame's slot is being filled again, unless that has gone beyond what the reader saw.
   */
  lemma {:induction false} EveryReadoutIsSafe<T>(c: Config, dst: seq<T>, polls: seq<Poll<T>>, w: nat, frame: seq<T>)
    requires c.Valid() && |dst| == c.pixels && Transfer(c, polls, w, frame) && NotOvertaken(c, polls, w)
    ensures Safe(c, Run(c, NewReader(dst), polls), frame)
    ensures Tracks(c, Run(c, NewReader(dst), polls), Seen(c, polls, w))
    decreases |polls|
  {
    hide Step, Safe, InPass, InNextPass, NotOvertaken, Transfer, Count, Seen, Tracks;
    TransferSizes(c, polls, w, frame);
    if polls == [] {
      NewReaderIsSafe(c, dst, frame);
      NothingSeen(c, dst);
    } else {
      var n := |polls| - 1;
      var front, w' := polls[..n], if w <= n then w else n;
      TransferPrefix(c, polls, w, frame);
      LastLook(c, polls, w, frame);
      EveryReadoutIsSafe(c, dst, front, w', frame);
      var before := Run(c, NewReader(dst), front);
      if before.status != Reading {
        assert Tracks(c, before, Seen(c, polls, w)) by { NotTracked(c, before, Seen(c, polls, w)); }
      } else if w <= n {
        NextPassStep(c, before, polls[n], frame, Seen(c, polls, w));
      } else {
        InPassStep(c, before, polls[n], frame, Seen(c, front, n));
      }
    }
  }

  lemma NothingSeen<T>(c: Config, dst: seq<T>)
    requires c.Valid()
    ensures Tracks(c, NewReader(dst), Seen<T>(c, [], 0))
  {
  }

  lemma NotTracked<T>(c: Config, r: Reader<T>, seen: nat)
    requires r.status != Reading
    ensures Tracks(c, r, seen)
  {
  }

  // ---- where it goes wrong ----

  /**
   * A look in the next pass, at a slot that by then shows pixels of the later frame beyond what the reader has
   * copied: it stays safe exactly when they are too few to be copied.
   */
  lemma OvertakenIff<T>(c: Config, r: Reader<T>, poll: Poll<T>, frame: seq<T>)
    requires c.Valid() && Safe(c, r, frame) && r.status == Reading && r.oldpix < c.pixels == |poll.memory|
    requires InNextPass(c, poll, frame) && poll.counter >= c.totPixRec && !TimesOut(r, Progress(c, poll.counter))
    requires r.oldpix < Count(c, poll) ==>
               poll.memory[r.oldpix..Count(c, poll)] != frame[r.oldpix..Count(c, poll)]
    ensures Safe(c, Step(c, r, poll), frame) <==> Count(c, poll) < r.oldpix + c.buffSize && Count(c, poll) < c.pixels
  {
    StepIsSafeIff(c, r, poll, frame);
    if Count(c, poll) <= r.oldpix {
      SliceOfSuffix(poll.memory, frame, Count(c, poll), r.oldpix, c.pixels);
    }
  }

  /** The later frame is another one: it differs in every pixel it has replaced. */
  ghost predicate Replaced<T>(c: Config, polls: seq<Poll<T>>, w: nat, frame: seq<T>)
    requires |frame| == c.pixels && forall p :: p in polls ==> |p.memory| == c.pixels
  {
    forall i, q :: w <= i < |polls| && 0 <= q < Count(c, polls[i]) ==>
      polls[i] in polls && polls[i].memory[q] != frame[q]
  }

  /** A look that shows so much of the later frame that a reader that has copied oldpix pixels copies some of it. */
  predicate Overtakes<T>(c: Config, poll: Poll<T>, oldpix: nat) {
    poll.counter >= c.totPixRec && Count(c, poll) > oldpix
    && (Count(c, poll) >= oldpix + c.buffSize || Count(c, poll) == c.pixels)
  }

  /** The reader makes another look only while it is reading. */
  ghost predicate AllLooked<T>(c: Config, r: Reader<T>, polls: seq<Poll<T>>)
    requires c.Valid() && r.oldpix <= c.pixels == |r.dst| && forall p :: p in polls ==> |p.memory| == c.pixels
  {
    forall k :: 0 <= k < |polls| ==> Run(c, r, polls[..k]).status == Reading
  }

  /** What is published has been copied, right or wrong. */
  ghost predicate Tidy<T>(c: Config, r: Reader<T>)
    requires c.Valid()
  {
    && |r.dst| == c.pixels && r.oldpix <= c.pixels
    && (if r.status == Complete then r.oldpix == c.pixels && r.published == c.Buffers()
        else r.published * c.buffSize <= r.oldpix)
  }

  /** A pass keeps what was copied before, and publishes no more than it copies. */
  lemma StepIsTidy<T>(c: Config, r: Reader<T>, poll: Poll<T>)
    requires c.Valid() && Tidy(c, r) && r.status == Reading && |poll.memory| == c.pixels
    ensures Tidy(c, Step(c, r, poll)) && r.oldpix <= Step(c, r, poll).oldpix
    ensures Step(c, r, poll).dst[..r.oldpix] == r.dst[..r.oldpix]
  {
    hide Config.Buffers;
    var pix := Arrived(c, r.oldpix, Progress(c, poll.counter));
    if HasCopied(c, r, poll) {
      WholeBuffers(pix, c.buffSize);
      assert Copied(r.dst, poll.memory, r.oldpix, pix)[..r.oldpix] == r.dst[..r.oldpix];
    }
  }

  /** Wrong pixels are never copied over. */
  lemma UnsafeStays<T>(c: Config, r: Reader<T>, poll: Poll<T>, frame: seq<T>)
    requires c.Valid() && Tidy(c, r) && r.status == Reading && |poll.memory| == |frame| == c.pixels
    requires !Safe(c, r, frame)
    ensures !Safe(c, Step(c, r, poll), frame)
  {
    hide Step;
    StepIsTidy(c, r, poll);
    MismatchStays(r.dst, Step(c, r, poll).dst, frame, r.oldpix, Step(c, r, poll).oldpix);
  }

  lemma MismatchStays<T>(a: seq<T>, b: seq<T>, frame: seq<T>, lo: nat, hi: nat)
    requires lo <= hi <= |a| == |b| == |frame| && a[..lo] != frame[..lo] && b[..lo] == a[..lo]
    ensures b[..hi] != frame[..hi]
  {
    assert b[..hi][..lo] == b[..lo] && frame[..hi][..lo] == frame[..lo];
  }

  /** One look in the next pass, in terms of what the reader has copied. */
  lemma NextPassStepIff<T>(c: Config, r: Reader<T>, poll: Poll<T>, frame: seq<T>)
    requires c.Valid() && Safe(c, r, frame) && r.status == Reading && r.oldpix < c.pixels == |poll.memory|
    requires InNextPass(c, poll, frame) && forall q :: 0 <= q < Count(c, poll) ==> poll.memory[q] != frame[q]
    ensures Safe(c, Step(c, r, poll), frame)
            <==> TimesOut(r, Progress(c, poll.counter)) || !Overtakes(c, poll, r.oldpix)
    ensures Safe(c, Step(c, r, poll), frame) && Step(c, r, poll).status == Reading ==>
              Step(c, r, poll).oldpix == r.oldpix
  {
    hide Copied, Config.Buffers;
    StepIsSafeIff(c, r, poll, frame);
    var n, progress := Count(c, poll), Progress(c, poll.counter);
    var pix := Arrived(c, r.oldpix, progress);
    if progress >= 0 && n <= r.oldpix {
      SliceOfSuffix(poll.memory, frame, n, r.oldpix, c.pixels);
    }
    if HasCopied(c, r, poll) && r.oldpix < n {
      assert poll.memory[r.oldpix..pix][0] == poll.memory[r.oldpix] && frame[r.oldpix..pix][0] == frame[r.oldpix];
    }
  }

  /** Look i does not overtake a reader that had copied oldpix pixels before the next pass, or ends it by timeout. */
  ghost predicate NotTaken<T>(c: Config, dst: seq<T>, polls: seq<Poll<T>>, i: nat, oldpix: nat)
    requires c.Valid() && |dst| == c.pixels && i < |polls| && forall p :: p in polls ==> |p.memory| == c.pixels
  {
    TimesOut(Run(c, NewReader(dst), polls[..i]), Progress(c, polls[i].counter)) || !Overtakes(c, polls[i], oldpix)
  }

  ghost predicate NoneTaken<T>(c: Config, dst: seq<T>, polls: seq<Poll<T>>, w: nat)
    requires c.Valid() && |dst| == c.pixels && w <= |polls| && forall p :: p in polls ==> |p.memory| == c.pixels
  {
    forall i :: w <= i < |polls| ==> NotTaken(c, dst, polls, i, Run(c, NewReader(dst), polls[..w]).oldpix)
  }

  /**
   * Exactly when a whole readout is safe whose last looks come in the next pass: none of those shows so much of
   * the later frame that a reader that stands where this one stood after the first w looks would copy some of it.
   */
  lemma {:induction false} ReadoutIsSafeIff<T>(c: Config, dst: seq<T>, polls: seq<Poll<T>>, w: nat, frame: seq<T>)
    requires c.Valid() && |dst| == c.pixels && Transfer(c, polls, w, frame)
    requires Replaced(c, polls, w, frame) && AllLooked(c, NewReader(dst), polls)
    ensures Tidy(c, Run(c, NewReader(dst), polls))
    ensures Safe(c, Run(c, NewReader(dst), polls), frame) <==> NoneTaken(c, dst, polls, w)
    ensures Safe(c, Run(c, NewReader(dst), polls), frame) && Run(c, NewReader(dst), polls).status == Reading ==>
              var before := Run(c, NewReader(dst), polls[..w]);
              Run(c, NewReader(dst), polls).oldpix == before.oldpix < c.pixels
    decreases |polls|
  {
    hide Step, Safe, Tidy, Tracks, InPass, InNextPass, Count, Run, Overtakes, NotTaken;
    if w == |polls| {
      EveryReadoutIsSafe(c, dst, polls, w, frame);
      SafeIsTidy(c, Run(c, NewReader(dst), polls), frame);
      TracksStays(c, Run(c, NewReader(dst), polls), Seen(c, polls, w));
      assert polls[..w] == polls;
    } else {
      var n := |polls| - 1;
      FrontLooks(c, dst, polls, w, frame);
      ReadoutIsSafeIff(c, dst, polls[..n], w, frame);
      LastLookDecides(c, dst, polls, w, frame);
    }
  }

  lemma SafeIsTidy<T>(c: Config, r: Reader<T>, frame: seq<T>)
    requires c.Valid() && Safe(c, r, frame)
    ensures Tidy(c, r)
  {
  }

  lemma TracksStays<T>(c: Config, r: Reader<T>, seen: nat)
    requires Tracks(c, r, seen)
    ensures r.status == Reading ==> r.oldpix < c.pixels
  {
  }

  lemma FrontLooks<T>(c: Config, dst: seq<T>, polls: seq<Poll<T>>, w: nat, frame: seq<T>)
    requires c.Valid() && |dst| == c.pixels && Transfer(c, polls, w, frame) && w < |polls|
    requires Replaced(c, polls, w, frame) && AllLooked(c, NewReader(dst), polls)
    ensures var front := polls[..|polls| - 1];
            && Transfer(c, front, w, frame) && Replaced(c, front, w, frame) && AllLooked(c, NewReader(dst), front)
  {
    hide Transfer, Count, Run;
    var front := polls[..|polls| - 1];
    TransferSizes(c, polls, w, frame);
    FrontTransfer(c, polls, w, frame, front, w);
    TransferSizes(c, front, w, frame);
    assert forall i :: 0 <= i < |front| ==> front[i] == polls[i] && front[i] in front;
    forall k | 0 <= k < |front|
      ensures Run(c, NewReader(dst), front[..k]).status == Reading
    {
      assert front[..k] == polls[..k];
    }
  }

  lemma LastLookDecides<T>(c: Config, dst: seq<T>, polls: seq<Poll<T>>, w: nat, frame: seq<T>)
    requires c.Valid() && |dst| == c.pixels && Transfer(c, polls, w, frame) && w < |polls|
    requires Replaced(c, polls, w, frame) && AllLooked(c, NewReader(dst), polls)
    requires forall p :: p in polls[..|polls| - 1] ==> |p.memory| == c.pixels
    requires var (front, start) := (polls[..|polls| - 1], NewReader(dst));
             var before := Run(c, start, front);
             && Tidy(c, before)
             && (Safe(c, before, frame) <==> NoneTaken(c, dst, front, w))
             && (Safe(c, before, frame) ==> before.oldpix == Run(c, start, front[..w]).oldpix < c.pixels)
    ensures var after := Run(c, NewReader(dst), polls);
            && Tidy(c, after)
            && (Safe(c, after, frame) <==> NoneTaken(c, dst, polls, w))
            && (Safe(c, after, frame) && after.status == Reading ==>
                  after.oldpix == Run(c, NewReader(dst), polls[..w]).oldpix < c.pixels)
  {
    hide Step, Safe, Tidy, Transfer, Replaced, AllLooked, NoneTaken, InNextPass, Overtakes, Count, Run, TimesOut;
    var n, start := |polls| - 1, NewReader(dst);
    var front := polls[..n];
    LastInNextPass(c, dst, polls, w, frame);
    assert front[..w] == polls[..w];
    RunMore(c, start, polls, n);
    assert polls[..n + 1] == polls;
    var before := Run(c, start, front);
    StepIsTidy(c, before, polls[n]);
    TakenByFront(c, dst, polls, w);
    if Safe(c, before, frame) {
      NextPassStepIff(c, before, polls[n], frame);
    } else {
      TidySizes(c, before);
      UnsafeStays(c, before, polls[n], frame);
    }
  }

  lemma LastInNextPass<T>(c: Config, dst: seq<T>, polls: seq<Poll<T>>, w: nat, frame: seq<T>)
    requires c.Valid() && |dst| == c.pixels && Transfer(c, polls, w, frame) && w < |polls|
    requires Replaced(c, polls, w, frame) && AllLooked(c, NewReader(dst), polls)
    ensures |frame| == c.pixels && forall p :: p in polls ==> |p.memory| == c.pixels
    ensures var last := polls[|polls| - 1];
            && last in polls && InNextPass(c, last, frame)
            && forall q :: 0 <= q < Count(c, last) ==> last.memory[q] != frame[q]
    ensures Run(c, NewReader(dst), polls[..|polls| - 1]).status == Reading
  {
    hide InPass, InNextPass, Count, Run;
  }

  lemma TidySizes<T>(c: Config, r: Reader<T>)
    requires c.Valid() && Tidy(c, r)
    ensures |r.dst| == c.pixels && r.oldpix <= c.pixels
  {
  }

  lemma TakenByFront<T>(c: Config, dst: seq<T>, polls: seq<Poll<T>>, w: nat)
    requires c.Valid() && |dst| == c.pixels && w < |polls| && forall p :: p in polls ==> |p.memory| == c.pixels
    requires forall p :: p in polls[..|polls| - 1] ==> |p.memory| == c.pixels
    ensures NoneTaken(c, dst, polls, w) <==>
            && NoneTaken(c, dst, polls[..|polls| - 1], w)
            && NotTaken(c, dst, polls, |polls| - 1, Run(c, NewReader(dst), polls[..w]).oldpix)
  {
    hide NotTaken, Run;
    var front, oldpix := polls[..|polls| - 1], Run(c, NewReader(dst), polls[..w]).oldpix;
    assert front[..w] == polls[..w];
    if NoneTaken(c, dst, front, w) && NotTaken(c, dst, polls, |front|, oldpix) {
      forall i | w <= i < |polls|
        ensures NotTaken(c, dst, polls, i, oldpix)
      {
        if i < |front| {
          SameLook(c, dst, front, polls, i, oldpix);
        }
      }
    }
    if NoneTaken(c, dst, polls, w) {
      forall i | w <= i < |front|
        ensures NotTaken(c, dst, front, i, oldpix)
      {
        SameLook(c, dst, front, polls, i, oldpix);
      }
    }
  }

  lemma SameLook<T>(c: Config, dst: seq<T>, front: seq<Poll<T>>, polls: seq<Poll<T>>, i: nat, oldpix: nat)
    requires c.Valid() && |dst| == c.pixels && i < |front| <= |polls| && front == polls[..|front|]
    requires (forall p :: p in polls ==> |p.memory| == c.pixels) && forall p :: p in front ==> |p.memory| == c.pixels
    ensures NotTaken(c, dst, front, i, oldpix) <==> NotTaken(c, dst, polls, i, oldpix)
  {
    hide Run, Overtakes, TimesOut;
    assert front[..i] == polls[..i] && front[i] == polls[i];
  }

  /** Half of a frame, and then a look at the whole of the next one: reported complete with both mixed. */
  lemma OvertakenReadout()
    ensures var c := Config(4, 2, 0, true);
            var polls := [Poll(2, [1, 1, 0, 0]), Poll(4, [2, 2, 2, 2])];
            && Transfer(c, polls, 1, [1, 1, 1, 1])
            && Run(c, NewReader([0, 0, 0, 0]), polls).status == Complete
            && Run(c, NewReader([0, 0, 0, 0]), polls).dst == [1, 1, 2, 2]
  {
    hide Run, Step;
    var c, first, second := Config(4, 2, 0, true), Poll(2, [1, 1, 0, 0]), Poll(4, [2, 2, 2, 2]);
    HalfArrived(c, first);
    TwoLooks(c, NewReader([0, 0, 0, 0]), first, second);
    OtherArrived(c, second);
    HalfThenOther(c, first, second);
  }

  lemma TwoLooks<T>(c: Config, r: Reader<T>, first: Poll<T>, second: Poll<T>)
    requires c.Valid() && r.status == Reading && r.oldpix <= c.pixels == |r.dst| == |first.memory| == |second.memory|
    requires Step(c, r, first).status == Reading
    ensures Run(c, r, [first, second]) == Step(c, Step(c, r, first), second)
  {
    assert [first, second][..1] == [first] && [first][..0] == [];
    assert Run(c, r, [first]) == Step(c, r, first);
  }

  lemma HalfArrived(c: Config, first: Poll<int>)
    requires c == Config(4, 2, 0, true) && first == Poll(2, [1, 1, 0, 0])
    ensures Step(c, NewReader([0, 0, 0, 0]), first) == Reader(Reading, 2, 2, 0, 1, [1, 1, 0, 0])
  {
    assert Copied([0, 0, 0, 0], first.memory, 0, 2) == [1, 1, 0, 0];
  }

  lemma OtherArrived(c: Config, second: Poll<int>)
    requires c == Config(4, 2, 0, true) && second == Poll(4, [2, 2, 2, 2])
    ensures Step(c, Reader(Reading, 2, 2, 0, 1, [1, 1, 0, 0]), second) == Reader(Complete, 4, 4, 0, 2, [1, 1, 2, 2])
  {
    assert Copied([1, 1, 0, 0], second.memory, 2, 4) == [1, 1, 2, 2];
  }

  lemma HalfThenOther(c: Config, first: Poll<int>, second: Poll<int>)
    requires c == Config(4, 2, 0, true)
    requires first == Poll(2, [1, 1, 0, 0]) && second == Poll(4, [2, 2, 2, 2])
    ensures Transfer(c, [first, second], 1, [1, 1, 1, 1])
  {
    assert first.memory[..2] == [1, 1, 1, 1][..2] && second.memory[4..] == [1, 1, 1, 1][4..];
    assert InPass(c, first, [1, 1, 1, 1]) && InNextPass(c, second, [1, 1, 1, 1]);
  }

  /** A counter below the start of the frame's slot is taken for a whole frame, whatever is in memory. */
  lemma EarlyCountIsTaken<T>(c: Config, r: Reader<T>, poll: Poll<T>)
    requires c.Valid() && r.status == Reading && r.oldpix <= c.pixels == |poll.memory| == |r.dst|
    requires 0 <= poll.counter < c.totPixRec && !TimesOut(r, c.pixels)
    ensures Step(c, r, poll).status == Complete
    ensures Step(c, r, poll).dst == Copied(r.dst, poll.memory, r.oldpix, c.pixels)
  {
  }

  // ---- handing out what was published ----

  /** return_data_pointer: first pixel and pixel count of buffer buf_read, in units of pixels. */
  function Chunk(c: Config, bufRead: nat): (r: (nat, nat))
    requires c.Valid() && 1 <= bufRead <= c.Buffers()
    ensures r.0 + r.1 <= c.pixels
  {
    var pos := (bufRead - 1) * c.buffSize;
    ChunkStarts(c, bufRead);
    (pos, if c.pixels - pos >= c.buffSize then c.buffSize else c.pixels - pos)
  }

  lemma ChunkStarts(c: Config, bufRead: nat)
    requires c.Valid() && 1 <= bufRead <= c.Buffers()
    ensures 0 <= (bufRead - 1) * c.buffSize < c.pixels
  {
    MulMonotone(0, bufRead - 1, c.buffSize);
    MulMonotone(bufRead, c.Buffers(), c.buffSize);
    MulSplit(bufRead - 1, 1, c.buffSize);
  }

  /** A chunk handed out for a published count holds the frame's own pixels. */
  lemma PublishedChunkIsValid<T>(c: Config, r: Reader<T>, frame: seq<T>, b: nat)
    requires c.Valid() && Safe(c, r, frame) && 1 <= b <= r.published && r.published <= c.Buffers()
    ensures var (pos, n) := Chunk(c, b);
            r.dst[pos..pos + n] == frame[pos..pos + n]
  {
    var (pos, n) := Chunk(c, b);
    assert pos + n <= r.oldpix by {
      if r.status != Complete {
        MulMonotone(b, r.published, c.buffSize);
        MulSplit(b - 1, 1, c.buffSize);
      }
    }
    SliceOfPrefix(r.dst, frame, r.oldpix, pos, pos + n);
  }

  /** No more buffers are published than the frame has. */
  lemma PublishedIsBounded<T>(c: Config, r: Reader<T>, frame: seq<T>)
    requires c.Valid() && Safe(c, r, frame)
    ensures r.published <= c.Buffers()
  {
    if r.published > c.Buffers() {
      MulMonotone(c.Buffers() + 1, r.published, c.buffSize);
      MulSplit(c.Buffers(), 1, c.buffSize);
      assert false;
    }
  }

  // ---- the loop itself ----

  lemma RunMore<T>(c: Config, r: Reader<T>, polls: seq<Poll<T>>, k: nat)
    requires c.Valid() && r.oldpix <= c.pixels == |r.dst| && k < |polls|
    requires forall p :: p in polls ==> |p.memory| == c.pixels
    ensures polls[k] in polls
    ensures Run(c, r, polls[..k]).status == Reading ==>
              Run(c, r, polls[..k + 1]) == Step(c, Run(c, r, polls[..k]), polls[k])
    ensures Run(c, r, polls[..k]).status != Reading ==> Run(c, r, polls[..k + 1]) == Run(c, r, polls[..k])
  {
    assert polls[..k + 1][..k] == polls[..k];
    assert polls[..k + 1][k] == polls[k];
  }

  lemma RunNothing<T>(c: Config, r: Reader<T>)
    requires c.Valid() && r.oldpix <= c.pixels == |r.dst|
    ensures Run(c, r, []) == r
  {
  }

  lemma FinishedStays<T>(c: Config, r: Reader<T>, polls: seq<Poll<T>>, k: nat)
    requires c.Valid() && r.oldpix <= c.pixels == |r.dst| && k <= |polls|
    requires forall p :: p in polls ==> |p.memory| == c.pixels
    requires Run(c, r, polls[..k]).status != Reading
    ensures Run(c, r, polls) == Run(c, r, polls[..k])
    decreases |polls| - k
  {
    hide Run, Step;
    if k < |polls| {
      RunMore(c, r, polls, k);
      FinishedStays(c, r, polls, k + 1);
    } else {
      assert polls[..k] == polls;
    }
  }

  const MAX_WAIT := 30000  // looks at an unchanged counter before the copying loop starts anyway

  /** How many looks the wait for the first progress takes: the one that ends it is used up as well. */
  function Waited<T>(c: Config, counted: nat, polls: seq<Poll<T>>, tout: nat): (n: nat)
    ensures n <= |polls|
  {
    if polls == [] then 0
    else if Progress(c, polls[0].counter) == counted && tout < MAX_WAIT then 1 + Waited(c, counted, polls[1..],
        tout + 1)
    else 1
  }

  class FrameReader<T> {
    var framesPerBuffer: nat
    var framesCounter: nat
    var totPixRec: nat
    var pciPixCounter: nat
    var buffSize: nat
    var bufRead: nat       // frame[fmi].buf_read, what the display and the writer see

    ghost predicate Valid()
      reads this
    {
      buffSize > 0 && framesPerBuffer > 0 && framesCounter < framesPerBuffer
    }

    constructor (framesPerBuffer: nat, buffSize: nat)
      requires framesPerBuffer > 0 && buffSize > 0
      ensures Valid() && this.framesPerBuffer == framesPerBuffer && this.buffSize == buffSize
      ensures FrameInfo(framesPerBuffer, totPixRec, framesCounter) == FramesRead(framesPerBuffer, 0, 0)
    {
      this.framesPerBuffer, this.buffSize := framesPerBuffer, buffSize;
      framesCounter, totPixRec, pciPixCounter, bufRead := 0, 0, 0, 0;
    }

    function Settings(pixels: nat): Config
      reads this
    {
      Config(pixels, buffSize, totPixRec, framesCounter + 1 == framesPerBuffer)
    }

    /** The wait for the first progress, in numbers of looks; pix is compared with the whole buffer's counter. */
    method WaitForProgress(pixels: nat, polls: seq<Poll<T>>) returns (n: nat)
      requires Valid()
      ensures n == Waited(Settings(pixels), pciPixCounter, polls, 0)
    {
      n := 0;
      var waiting := true;
      assert polls[0..] == polls;
      while n < |polls| && waiting
        invariant n <= |polls|
        invariant Waited(Settings(pixels), pciPixCounter, polls, 0)
               == n + (if waiting then Waited(Settings(pixels), pciPixCounter, polls[n..], n) else 0)
        decreases |polls| - n, waiting
      {
        waiting := Progress(Settings(pixels), polls[n].counter) == pciPixCounter && n < MAX_WAIT;
        assert polls[n..][1..] == polls[n + 1..];
        n := n + 1;
      }
    }

    /** Copies one frame of `pixels` pixels; polls are the looks at the driver, in order. */
    method ReadFrame(pixels: nat, polls: seq<Poll<T>>, dst: array<T>) returns (status: Status, oldpix: nat)
      requires Valid() && pixels > 0 && dst.Length == pixels
      requires forall p :: p in polls ==> |p.memory| == pixels
      modifies dst, this`bufRead, this`framesCounter, this`totPixRec, this`pciPixCounter
      ensures Valid()
      ensures var c := old(Settings(pixels));
              var r := Run(c, NewReader(old(dst[..])), polls[Waited(c, old(pciPixCounter), polls, 0)..]);
              status == r.status && oldpix == r.oldpix && dst[..] == r.dst && bufRead == r.published
      ensures FrameInfo(framesPerBuffer, totPixRec, framesCounter) ==
              (var i := old(FrameInfo(framesPerBuffer, totPixRec, framesCounter));
               if status == Complete then NextFrame(i, pixels) else i)
      ensures pciPixCounter == if status == Complete then old(totPixRec) + pixels else old(pciPixCounter)
    {
      var n := WaitForProgress(pixels, polls);
      assert forall p :: p in polls[n..] ==> p in polls;
      status, oldpix := CopyFrame(pixels, polls[n..], dst);
    }

    /** The copying loop. */
    method CopyFrame(pixels: nat, polls: seq<Poll<T>>, dst: array<T>) returns (status: Status, oldpix: nat)
      requires Valid() && pixels > 0 && dst.Length == pixels
      requires forall p :: p in polls ==> |p.memory| == pixels
      modifies dst, this`bufRead, this`framesCounter, this`totPixRec, this`pciPixCounter
      ensures Valid()
      ensures var r := Run(old(Settings(pixels)), NewReader(old(dst[..])), polls);
              status == r.status && oldpix == r.oldpix && dst[..] == r.dst && bufRead == r.published
      ensures FrameInfo(framesPerBuffer, totPixRec, framesCounter) ==
              (var i := old(FrameInfo(framesPerBuffer, totPixRec, framesCounter));
               if status == Complete then NextFrame(i, pixels) else i)
      ensures pciPixCounter == if status == Complete then old(totPixRec) + pixels else old(pciPixCounter)
    {
      hide Copied, Run;
      var c := Settings(pixels);
      ghost var start := NewReader(dst[..]);
      RunNothing(c, start);
      assert polls[..0] == [];
      var prevpix, tout, k, last := 0, 0, 0, framesCounter + 1 == framesPerBuffer;
      var bufsRead := 0;
      status, oldpix := Reading, 0;
      bufRead := bufsRead;
      while k < |polls| && status == Reading
        invariant 0 <= k <= |polls| && oldpix <= pixels && bufsRead == bufRead
        invariant Run(c, start, polls[..k]) == Reader(status, oldpix, prevpix, tout, bufRead, dst[..])
        modifies dst, this`bufRead
      {
        RunMore(c, start, polls, k);
        ghost var before := Reader(status, oldpix, prevpix, tout, bufRead, dst[..]);
        var pix := Progress(c, polls[k].counter);
        var same := pix == prevpix;
        if same {
          tout := tout + 1;
          if tout > MAX_SAME + 1 {
            status := TimedOut;
          }
        } else {
          tout := 0;
        }
        if status == Reading {
          prevpix := pix;
          if pix < 0 {
            status := Failed(pix);
          } else {
            if pix > pixels {
              pix := pixels;
            }
            if pix < oldpix && last {
              pix := pixels;
            }
            if pix - oldpix >= buffSize {
              CopyPixels(dst, polls[k].memory, oldpix, pix);
              oldpix, bufsRead := pix, pix / buffSize;
            } else if pix == pixels {
              CopyPixels(dst, polls[k].memory, oldpix, pix);
              oldpix := pix;
            }
            // Everything has been copied, and nothing of it is published yet.
            assert Reader(status, oldpix, prevpix, tout, bufRead, dst[..]) == CopyHalf(c, before, polls[k]);
            if pix == pixels {
              status, bufsRead := Complete, (pixels + buffSize - 1) / buffSize;
            }
            bufRead := bufsRead;
          }
        }
        k := k + 1;
      }
      if status == Complete {
        UpdateFrameInfo(pixels);
      }
      if status != Reading {
        FinishedStays(c, start, polls, k);
      } else {
        assert polls[..k] == polls;
      }
    }

    method UpdateFrameInfo(pixels: nat)
      requires Valid()
      modifies this`framesCounter, this`totPixRec, this`pciPixCounter
      ensures Valid()
      ensures FrameInfo(framesPerBuffer, totPixRec, framesCounter)
           == NextFrame(old(FrameInfo(framesPerBuffer, totPixRec, framesCounter)), pixels)
      ensures pciPixCounter == old(totPixRec) + pixels
    {
      totPixRec := totPixRec + pixels;
      pciPixCounter := totPixRec;
      if totPixRec % 512 != 0 {
        totPixRec := 512 * (totPixRec / 512 + 1);
      }
      framesCounter := framesCounter + 1;
      if framesCounter >= framesPerBuffer {
        framesCounter, totPixRec := 0, 0;
      }
    }
  }

  method CopyPixels<T>(dst: array<T>, memory: seq<T>, from: nat, to: nat)
    requires from <= to <= |memory| && to <= dst.Length
    modifies dst
    ensures dst[..] == Copied(old(dst[..]), memory, from, to)
  {
    forall p | from <= p < to {
      dst[p] := memory[p];
    }
  }

  // ---- where each frame lies in the DMA buffer ----

  datatype FrameInfo = FrameInfo(framesPerBuffer: nat, totPixRec: nat, framesCounter: nat)

  function NextFrame(i: FrameInfo, pixels: nat): FrameInfo {
    var tot := i.totPixRec + pixels;
    if i.framesCounter + 1 >= i.framesPerBuffer then FrameInfo(i.framesPerBuffer, 0, 0)
    else FrameInfo(i.framesPerBuffer, if tot % 512 != 0 then 512 * (tot / 512 + 1) else tot, i.framesCounter + 1)
  }

  /** After k frames of the same size, from a fresh start. */
  function FramesRead(framesPerBuffer: nat, pixels: nat, k: nat): FrameInfo {
    if k == 0 then FrameInfo(framesPerBuffer, 0, 0) else NextFrame(FramesRead(framesPerBuffer, pixels, k - 1), pixels)
  }

  /** A frame's room in the buffer, in pixels. */
  function Stride(pixels: nat): nat {
    (pixels + 511) / 512 * 512
  }

  /** Frame k starts at its slot's offset: slots follow each other in strides, and start over after a full buffer. */
  lemma {:induction false} FrameOffset(framesPerBuffer: nat, pixels: nat, k: nat)
    requires framesPerBuffer > 0
    ensures FramesRead(framesPerBuffer, pixels, k)
         == FrameInfo(framesPerBuffer, k % framesPerBuffer * Stride(pixels), k % framesPerBuffer)
  {
    hide Stride, NextFrame;
    if k > 0 {
      FrameOffset(framesPerBuffer, pixels, k - 1);
      NextFrameAt(framesPerBuffer, pixels, (k - 1) % framesPerBuffer);
      NextSlot(framesPerBuffer, k - 1);
    } else {
      assert 0 % framesPerBuffer == 0;
    }
  }

  lemma NextFrameAt(framesPerBuffer: nat, pixels: nat, slot: nat)
    requires slot < framesPerBuffer
    ensures 0 <= slot * Stride(pixels)
    ensures var next := if slot + 1 == framesPerBuffer then 0 else slot + 1;
            NextFrame(FrameInfo(framesPerBuffer, slot * Stride(pixels), slot), pixels)
            == FrameInfo(framesPerBuffer, next * Stride(pixels), next)
  {
    Aligned(slot, pixels);
    hide Stride;
    MulSplit(slot, 1, Stride(pixels));
  }

  /** A counter still at the end of frame k lies before the start of the next slot exactly when slots are padded. */
  lemma EndOfFrameIsEarlyIff(framesPerBuffer: nat, pixels: nat, k: nat)
    requires framesPerBuffer > 0 && k % framesPerBuffer + 1 < framesPerBuffer
    ensures FramesRead(framesPerBuffer, pixels, k).totPixRec + pixels
            < FramesRead(framesPerBuffer, pixels, k + 1).totPixRec
            <==> pixels % 512 != 0
  {
    hide Stride;
    FrameOffset(framesPerBuffer, pixels, k);
    FrameOffset(framesPerBuffer, pixels, k + 1);
    NextSlot(framesPerBuffer, k);
    MulSplit(k % framesPerBuffer, 1, Stride(pixels));
    StrideIsPaddedIff(pixels);
  }

  lemma StrideIsPaddedIff(pixels: nat)
    ensures pixels <= Stride(pixels) && (pixels < Stride(pixels) <==> pixels % 512 != 0)
  {
  }

  lemma NextSlot(n: nat, k: nat)
    requires n > 0
    ensures (k + 1) % n == if k % n + 1 == n then 0 else k % n + 1
  {
    var q, r := k / n, k % n;
    assert k == n * q + r;
    if r + 1 == n {
      CellSplit(n, q + 1, 0);
      assert k + 1 == (q + 1) * n;
    } else {
      CellSplit(n, q, r + 1);
      assert k + 1 == q * n + (r + 1);
    }
  }

  lemma Aligned(slot: nat, pixels: nat)
    ensures slot * Stride(pixels) >= 0
    ensures var tot := slot * Stride(pixels) + pixels;
            (if tot % 512 != 0 then 512 * (tot / 512 + 1) else tot) == slot * Stride(pixels) + Stride(pixels)
  {
    MulMonotone(0, slot, (pixels + 511) / 512);
    SlotBlocks(slot, (pixels + 511) / 512);
    AlignedBlocks(slot * ((pixels + 511) / 512), pixels);
  }

  lemma SlotBlocks(slot: nat, blocks: nat)
    ensures slot * (blocks * 512) == slot * blocks * 512
  {
  }

  lemma AlignedBlocks(blocks: nat, pixels: nat)
    ensures var tot := blocks * 512 + pixels;
            (if tot % 512 != 0 then 512 * (tot / 512 + 1) else tot) == blocks * 512 + (pixels + 511) / 512 * 512
  {
  }

  /** Frames in one pass over the buffer never share a pixel. */
  lemma FramesApart(framesPerBuffer: nat, pixels: nat, j: nat, k: nat)
    requires framesPerBuffer > 0 && j < k < framesPerBuffer
    ensures FramesRead(framesPerBuffer, pixels, j).totPixRec + pixels
            <= FramesRead(framesPerBuffer, pixels, k).totPixRec
  {
    FrameOffset(framesPerBuffer, pixels, j);
    FrameOffset(framesPerBuffer, pixels, k);
    CellSplit(framesPerBuffer, 0, j);
    CellSplit(framesPerBuffer, 0, k);
    MulMonotone(j + 1, k, Stride(pixels));
    MulSplit(j, 1, Stride(pixels));
  }
}
