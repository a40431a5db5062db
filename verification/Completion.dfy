/** What every look at the driver does, and when a readout of a frame is complete. */
module Completion {
  import opened Grid
  import opened Readout

  /** What the driver's counter says about this frame: an error, pixels of it, or all once it has gone back. */
  function Shown(c: Config, counter: int): int {
    if counter < 0 then counter else if counter < c.totPixRec then c.pixels else counter - c.totPixRec
  }

  /** The look that ends a readout for want of progress: the 3002nd in a row that shows the same. */
  predicate GivesUp<T>(c: Config, r: Reader<T>, counter: int) {
    Shown(c, counter) == r.prevpix && r.tout > 3000
  }

  /** The counter stands outside the frame's slot, or, in the last slot, in front of what has been copied. */
  predicate ShowsWhole(c: Config, oldpix: nat, counter: int) {
    counter >= 0 &&
    (counter < c.totPixRec || counter >= c.totPixRec + c.pixels ||
     (c.lastInBuffer && counter < c.totPixRec + oldpix))
  }

  /** A look that ends nothing, and shows a display buffer's worth of pixels that have not been copied. */
  predicate ShowsMore(c: Config, oldpix: nat, counter: int) {
    counter >= 0 && !ShowsWhole(c, oldpix, counter) && counter >= c.totPixRec + oldpix + c.buffSize
  }

  /** Exactly the looks that complete a readout, and what they leave: the rest of the frame is copied. */
  lemma CompletesIff<T>(c: Config, r: Reader<T>, poll: Poll<T>)
    requires c.Valid() && r.status == Reading && r.oldpix <= c.pixels == |poll.memory| == |r.dst|
    ensures Step(c, r, poll).status == Complete
            <==> !GivesUp(c, r, poll.counter) && ShowsWhole(c, r.oldpix, poll.counter)
    ensures Step(c, r, poll).status == Complete ==>
              && Step(c, r, poll).dst == r.dst[..r.oldpix] + poll.memory[r.oldpix..]
              && Step(c, r, poll).oldpix == c.pixels
              && (Step(c, r, poll).published - 1) * c.buffSize < c.pixels <= Step(c, r, poll).published * c.buffSize
  {
    hide Copied;
    if !GivesUp(c, r, poll.counter) && ShowsWhole(c, r.oldpix, poll.counter) {
      CopiedParts(r.dst, poll.memory, r.oldpix, c.pixels);
      EnoughBuffers(c);
    }
  }

  lemma CopiedParts<T>(dst: seq<T>, memory: seq<T>, from: nat, to: nat)
    requires from <= to <= |memory| == |dst|
    ensures Copied(dst, memory, from, to) == dst[..from] + memory[from..to] + dst[to..]
    ensures to == |dst| ==> Copied(dst, memory, from, to) == dst[..from] + memory[from..]
  {
  }

  lemma EnoughBuffers(c: Config)
    requires c.Valid()
    ensures (c.Buffers() - 1) * c.buffSize < c.pixels <= c.Buffers() * c.buffSize
  {
    var n := c.pixels + c.buffSize - 1;
    assert n == c.Buffers() * c.buffSize + n % c.buffSize;
    MulSplit(c.Buffers(), -1, c.buffSize);
  }

  /** Every other look: it gives up, reports the driver's error, copies what is new, or changes nothing. */
  lemma OtherLooks<T>(c: Config, r: Reader<T>, poll: Poll<T>)
    requires c.Valid() && r.status == Reading && r.oldpix <= c.pixels == |poll.memory| == |r.dst|
    requires GivesUp(c, r, poll.counter) || !ShowsWhole(c, r.oldpix, poll.counter)
    ensures var s, n := Step(c, r, poll), poll.counter - c.totPixRec;
            if GivesUp(c, r, poll.counter) then
              s.status == TimedOut && s.oldpix == r.oldpix && s.dst == r.dst && s.published == r.published
            else if poll.counter < 0 then
              s.status == Failed(poll.counter) && s.oldpix == r.oldpix && s.dst == r.dst && s.published == r.published
            else if ShowsMore(c, r.oldpix, poll.counter) then
              && s.status == Reading && s.oldpix == n && s.published == n / c.buffSize
              && s.dst == r.dst[..r.oldpix] + poll.memory[r.oldpix..n] + r.dst[n..]
            else
              s.status == Reading && s.oldpix == r.oldpix && s.dst == r.dst && s.published == r.published
  {
    hide Copied;
    if !GivesUp(c, r, poll.counter) && ShowsMore(c, r.oldpix, poll.counter) {
      CopiedParts(r.dst, poll.memory, r.oldpix, poll.counter - c.totPixRec);
    }
  }

  /** The count of equal looks goes on while nothing changes and starts over when something does. */
  lemma LooksAreCounted<T>(c: Config, r: Reader<T>, poll: Poll<T>)
    requires c.Valid() && r.status == Reading && r.oldpix <= c.pixels == |poll.memory| == |r.dst|
    ensures Step(c, r, poll).prevpix == Shown(c, poll.counter)
    ensures Step(c, r, poll).tout == if Shown(c, poll.counter) == r.prevpix then r.tout + 1 else 0
  {
  }

  // ---- whole readouts ----

  ghost predicate Looks<T>(c: Config, dst: seq<T>, polls: seq<Poll<T>>) {
    c.Valid() && |dst| == c.pixels && forall p :: p in polls ==> |p.memory| == c.pixels
  }

  /** The reader in front of look k. */
  ghost function Before<T>(c: Config, dst: seq<T>, polls: seq<Poll<T>>, k: nat): (r: Reader<T>)
    requires Looks(c, dst, polls) && k <= |polls|
    ensures |r.dst| == c.pixels && r.oldpix <= c.pixels
  {
    Run(c, NewReader(dst), polls[..k])
  }

  /** Look k is reached, and completes the readout. */
  ghost predicate CompletesAt<T>(c: Config, dst: seq<T>, polls: seq<Poll<T>>, k: nat)
    requires Looks(c, dst, polls) && k < |polls|
  {
    var r := Before(c, dst, polls, k);
    r.status == Reading && !GivesUp(c, r, polls[k].counter) && ShowsWhole(c, r.oldpix, polls[k].counter)
  }

  /** A readout is complete exactly when a look that it reaches completes it. */
  lemma CompleteIff<T>(c: Config, dst: seq<T>, polls: seq<Poll<T>>)
    requires Looks(c, dst, polls)
    ensures Run(c, NewReader(dst), polls).status == Complete
            <==> exists k :: 0 <= k < |polls| && CompletesAt(c, dst, polls, k)
  {
    hide Run, Step, GivesUp, ShowsWhole;
    assert polls[..|polls|] == polls;
    CompleteUpTo(c, dst, polls, |polls|);
  }

  lemma {:induction false} CompleteUpTo<T>(c: Config, dst: seq<T>, polls: seq<Poll<T>>, n: nat)
    requires Looks(c, dst, polls) && n <= |polls|
    ensures Before(c, dst, polls, n).status == Complete <==> exists k :: 0 <= k < n && CompletesAt(c, dst, polls, k)
    decreases n
  {
    hide Run, Step, GivesUp, ShowsWhole;
    if n == 0 {
      RunNothing(c, NewReader(dst));
      assert polls[..0] == [];
    } else {
      CompleteUpTo(c, dst, polls, n - 1);
      RunMore(c, NewReader(dst), polls, n - 1);
      var before, after := Before(c, dst, polls, n - 1), Before(c, dst, polls, n);
      if before.status == Reading {
        CompletesIff(c, before, polls[n - 1]);
        assert after.status == Complete <==> CompletesAt(c, dst, polls, n - 1);
      } else {
        assert after == before && !CompletesAt(c, dst, polls, n - 1);
      }
    }
  }

  /** A reader that is still reading has seen no error and no whole frame. */
  lemma StillReading<T>(c: Config, dst: seq<T>, polls: seq<Poll<T>>, k: nat)
    requires Looks(c, dst, polls) && k < |polls| && Run(c, NewReader(dst), polls).status == Reading
    ensures var before := Before(c, dst, polls, k);
            && before.status == Reading
            && polls[k].counter >= 0 && !ShowsWhole(c, before.oldpix, polls[k].counter)
            && !GivesUp(c, before, polls[k].counter)
  {
    hide Run, Step, GivesUp, ShowsWhole;
    var before := Before(c, dst, polls, k);
    if before.status != Reading {
      FinishedStays(c, NewReader(dst), polls, k);
      assert false;
    }
    RunMore(c, NewReader(dst), polls, k);
    if Step(c, before, polls[k]).status != Reading {
      FinishedStays(c, NewReader(dst), polls, k + 1);
      assert false;
    }
    CompletesIff(c, before, polls[k]);
    if GivesUp(c, before, polls[k].counter) || !ShowsWhole(c, before.oldpix, polls[k].counter) {
      OtherLooks(c, before, polls[k]);
    }
  }

  /**
   * A frame is read: once a look has shown the whole of it, the readout has ended; and a complete readout of a
   * monotone transfer that was not overtaken has the frame's pixels, all of them, and all its buffers published.
   */
  lemma TransferIsRead<T>(c: Config, dst: seq<T>, polls: seq<Poll<T>>, w: nat, frame: seq<T>, k: nat)
    requires Looks(c, dst, polls) && Transfer(c, polls, w, frame) && NotOvertaken(c, polls, w) && k < |polls|
    ensures var r := Run(c, NewReader(dst), polls);
            && (polls[k].counter >= c.totPixRec + c.pixels ==> r.status != Reading)
            && (r.status == Complete ==> r.dst == frame && r.published == c.Buffers())
            && (CompletesAt(c, dst, polls, k) ==> r.status == Complete)
  {
    hide Run, Transfer, NotOvertaken, GivesUp, Tracks, Safe;
    var r := Run(c, NewReader(dst), polls);
    if r.status == Reading {
      StillReading(c, dst, polls, k);
    }
    EveryReadoutIsSafe(c, dst, polls, w, frame);
    if r.status == Complete {
      CompleteIsFrame(c, r, frame);
    }
    if CompletesAt(c, dst, polls, k) {
      hide CompletesAt;
      CompleteIff(c, dst, polls);
    }
  }

  lemma CompleteIsFrame<T>(c: Config, r: Reader<T>, frame: seq<T>)
    requires c.Valid() && Safe(c, r, frame) && r.status == Complete
    ensures r.dst == frame && r.published == c.Buffers()
  {
    assert r.dst[..c.pixels] == r.dst && frame[..c.pixels] == frame;
  }

  // ---- no progress ----

  /** A counter inside the slot that shows nothing to copy. */
  predicate Stands<T>(c: Config, r: Reader<T>, counter: int) {
    counter >= 0 && !ShowsWhole(c, r.oldpix, counter) && !ShowsMore(c, r.oldpix, counter)
  }

  /** 3001 looks at a counter that stands still are waited for, and the next one ends the readout. */
  lemma {:induction false} StallEnds<T>(c: Config, r: Reader<T>, polls: seq<Poll<T>>, counter: int)
    requires c.Valid() && r.status == Reading && r.oldpix <= c.pixels == |r.dst| && Stands(c, r, counter)
    requires forall p :: p in polls ==> |p.memory| == c.pixels && p.counter == counter
    requires r.prevpix == counter - c.totPixRec && r.tout == 0
    ensures Run(c, r, polls).status == if |polls| <= 3001 then Reading else TimedOut
    ensures |polls| <= 3001 ==> Run(c, r, polls) == r.(tout := |polls|)
    decreases |polls|
  {
    hide Step;
    if polls != [] {
      var front, last := polls[..|polls| - 1], polls[|polls| - 1];
      assert last in polls;
      assert forall p :: p in front ==> p in polls;
      StallEnds(c, r, front, counter);
      var before := Run(c, r, front);
      if before.status == Reading {
        OtherLooks(c, before, last);
        LooksAreCounted(c, before, last);
      }
    }
  }

  /** The wait before the first pass ends with the first look at another counter, or with look 30001. */
  lemma {:induction false} WaitEnds<T>(c: Config, counted: nat, polls: seq<Poll<T>>, j: nat, tout: nat)
    requires j <= |polls| && forall i :: 0 <= i < j ==> Shown(c, polls[i].counter) == counted
    requires j < |polls| ==> Shown(c, polls[j].counter) != counted
    requires tout <= 30000
    ensures Waited(c, counted, polls, tout)
         == if j + tout > 30000 then 30001 - tout else if j < |polls| then j + 1 else j
    decreases j
  {
    if j > 0 && tout < 30000 {
      assert forall i :: 0 <= i < j - 1 ==> polls[1..][i] == polls[i + 1];
      WaitEnds(c, counted, polls[1..], j - 1, tout + 1);
    }
  }

  // ---- the chunks of a frame ----

  /** The chunks of a frame follow each other from its first pixel to its last. */
  lemma ChunksTileFrame(c: Config, b: nat)
    requires c.Valid() && 1 <= b <= c.Buffers()
    ensures b == 1 ==> Chunk(c, b).0 == 0
    ensures b < c.Buffers() ==> Chunk(c, b).1 == c.buffSize && Chunk(c, b).0 + Chunk(c, b).1 == Chunk(c, b + 1).0
    ensures b == c.Buffers() ==> Chunk(c, b).0 + Chunk(c, b).1 == c.pixels && 0 < Chunk(c, b).1 <= c.buffSize
  {
    EnoughBuffers(c);
    MulSplit(b - 1, 1, c.buffSize);
    MulSplit(b, -1, c.buffSize);
    if b < c.Buffers() {
      MulMonotone(b, c.Buffers() - 1, c.buffSize);
    }
  }
}
