/** Any sequence of coadding calls after a reset, against one call with the whole stream. */
module CoaddCalls {
  import opened Coadd

  /** The pixels of all calls, in order. */
  function Joined(calls: seq<seq<nat>>): seq<nat> {
    if calls == [] then [] else calls[0] + Joined(calls[1..])
  }

  // ---- 16-bit pixels: every pixel counts ----

  /** The accumulators after successive calls of samplesCoadd16To32, the first at pixel `start`. */
  function Coadd16(acc: seq<nat>, nc: nat, ns: nat, start: nat, calls: seq<seq<nat>>): (r: seq<nat>)
    requires nc > 0 && ns > 0 && InRange(|acc|, nc, ns, start, |Joined(calls)|)
    ensures |r| == |acc|
    decreases |calls|
  {
    if calls == [] then acc
    else
      RangeSplits(|acc|, nc, ns, start, |calls[0]|, |Joined(calls[1..])|);
      Coadd16(Stream(acc, nc, ns, start, calls[0]), nc, ns, start + |calls[0]|, calls[1..])
  }

  lemma RangeSplits(len: nat, nc: nat, ns: nat, start: nat, a: nat, b: nat)
    requires nc > 0 && ns > 0 && InRange(len, nc, ns, start, a + b)
    ensures InRange(len, nc, ns, start, a) && InRange(len, nc, ns, start + a, b)
  {
    hide Slot;
  }

  /** However the stream is cut into calls, the accumulators end as if it had come in one. */
  lemma {:induction false} CallsAreOneStream(acc: seq<nat>, nc: nat, ns: nat, start: nat, calls: seq<seq<nat>>)
    requires nc > 0 && ns > 0 && InRange(|acc|, nc, ns, start, |Joined(calls)|)
    ensures Coadd16(acc, nc, ns, start, calls) == Stream(acc, nc, ns, start, Joined(calls))
    decreases |calls|
  {
    hide InRange, Stream;
    if calls == [] {
      NoPixels(acc, nc, ns, start);
    } else {
      RangeSplits(|acc|, nc, ns, start, |calls[0]|, |Joined(calls[1..])|);
      StreamSplits(acc, nc, ns, start, calls[0], Joined(calls[1..]));
      CallsAreOneStream(Stream(acc, nc, ns, start, calls[0]), nc, ns, start + |calls[0]|, calls[1..]);
    }
  }

  lemma NoPixels(acc: seq<nat>, nc: nat, ns: nat, start: nat)
    requires nc > 0 && ns > 0
    ensures InRange(|acc|, nc, ns, start, 0) && Stream(acc, nc, ns, start, []) == acc
  {
  }

  // ---- 32-bit pixels: every call before the first whole group skips again ----

  /** The pixels that successive calls of samplesCoadd32To32 add, when `done` have been added before. */
  function Taken(calls: seq<seq<nat>>, done: nat, nc: nat, ns: nat, nskip: nat): (r: seq<nat>)
    ensures |r| <= |Joined(calls)|
  {
    if calls == [] then []
    else
      var skip := Skipped(done, |calls[0]|, nc, ns, nskip);
      calls[0][skip..] + Taken(calls[1..], done + |calls[0]| - skip, nc, ns, nskip)
  }

  /** The accumulators after those calls. */
  function Coadd32(acc: seq<nat>, nc: nat, ns: nat, nskip: nat, done: nat, calls: seq<seq<nat>>): (r: seq<nat>)
    requires nc > 0 && ns > 0 && InRange(|acc|, nc, ns, done, |Taken(calls, done, nc, ns, nskip)|)
    ensures |r| == |acc|
    decreases |calls|
  {
    if calls == [] then acc
    else
      var skip := Skipped(done, |calls[0]|, nc, ns, nskip);
      var after := done + |calls[0]| - skip;
      RangeSplits(|acc|, nc, ns, done, |calls[0][skip..]|, |Taken(calls[1..], after, nc, ns, nskip)|);
      Coadd32(Stream(acc, nc, ns, done, calls[0][skip..]), nc, ns, nskip, after, calls[1..])
  }

  /** The accumulators are those of one stream of the pixels taken. */
  lemma {:induction false} CallsAddTaken(acc: seq<nat>, nc: nat, ns: nat, nskip: nat, done: nat, calls: seq<seq<nat>>)
    requires nc > 0 && ns > 0 && InRange(|acc|, nc, ns, done, |Taken(calls, done, nc, ns, nskip)|)
    ensures Coadd32(acc, nc, ns, nskip, done, calls) == Stream(acc, nc, ns, done, Taken(calls, done, nc, ns, nskip))
    decreases |calls|
  {
    hide InRange, Stream, Skipped;
    if calls == [] {
      NoPixels(acc, nc, ns, done);
    } else {
      var skip := Skipped(done, |calls[0]|, nc, ns, nskip);
      var rest := Taken(calls[1..], done + |calls[0]| - skip, nc, ns, nskip);
      RangeSplits(|acc|, nc, ns, done, |calls[0][skip..]|, |rest|);
      StreamSplits(acc, nc, ns, done, calls[0][skip..], rest);
      CallsAddTaken(Stream(acc, nc, ns, done, calls[0][skip..]), nc, ns, nskip, done + |calls[0]| - skip, calls[1..]);
    }
  }

  /** Only one call has pixels, or the first one that has is long enough. */
  predicate FirstEnough(calls: seq<seq<nat>>, enough: nat) {
    if calls == [] then true
    else if calls[0] == [] then FirstEnough(calls[1..], enough)
    else Joined(calls[1..]) == [] || |calls[0]| >= enough
  }

  /** Skipped, with the two products named. */
  lemma SkipIs(done: nat, n: nat, nc: nat, ns: nat, nskip: nat, skip: nat, group: nat)
    requires skip == nskip * nc && group == ns * nc
    ensures Skipped(done, n, nc, ns, nskip) == if done >= group then 0 else if skip < n then skip else n
  {
  }

  lemma {:induction false} AllTaken(calls: seq<seq<nat>>, done: nat, nc: nat, ns: nat, nskip: nat, skip: nat,
                                    group: nat)
    requires skip == nskip * nc && group == ns * nc && (done >= group || skip == 0)
    ensures Taken(calls, done, nc, ns, nskip) == Joined(calls)
  {
    hide Skipped;
    if calls != [] {
      SkipIs(done, |calls[0]|, nc, ns, nskip, skip, group);
      AllTaken(calls[1..], done + |calls[0]|, nc, ns, nskip, skip, group);
    }
  }

  /** Before the first whole group the calls together skip at least what one call would. */
  lemma {:induction false} SkipsAtLeast(calls: seq<seq<nat>>, done: nat, nc: nat, ns: nat, nskip: nat, skip: nat,
                                        group: nat)
    requires skip == nskip * nc && group == ns * nc && done < group
    ensures |Taken(calls, done, nc, ns, nskip)|
            <= |Joined(calls)| - (if skip < |Joined(calls)| then skip else |Joined(calls)|)
  {
    hide Skipped;
    if calls != [] {
      SkipIs(done, |calls[0]|, nc, ns, nskip, skip, group);
      if |calls[0]| <= skip {
        SkipsAtLeast(calls[1..], done, nc, ns, nskip, skip, group);
      }
    }
  }

  /**
   * Exactly when the calls add the same pixels as one call with the whole stream: nothing is skipped, the
   * stream is no longer than the skip, only one call has pixels, or the first that has completes a group.
   */
  lemma {:induction false} CallsTakeStreamIff(calls: seq<seq<nat>>, nc: nat, ns: nat, nskip: nat, skip: nat, group: nat)
    requires nc > 0 && ns > 0 && skip == nskip * nc && group == ns * nc
    ensures (Taken(calls, 0, nc, ns, nskip) == Joined(calls)[Skipped(0, |Joined(calls)|, nc, ns, nskip)..])
            <==> skip == 0 || |Joined(calls)| <= skip || FirstEnough(calls, skip + group)
  {
    hide Skipped;
    GroupPositive(nc, ns);
    SkipIs(0, |Joined(calls)|, nc, ns, nskip, skip, group);
    if skip == 0 {
      AllTaken(calls, 0, nc, ns, nskip, skip, group);
    } else if |Joined(calls)| <= skip {
      SkipsAtLeast(calls, 0, nc, ns, nskip, skip, group);
    } else if calls[0] == [] {
      SkipIs(0, 0, nc, ns, nskip, skip, group);
      CallsTakeStreamIff(calls[1..], nc, ns, nskip, skip, group);
      assert Joined(calls) == Joined(calls[1..]);
      assert Taken(calls, 0, nc, ns, nskip) == Taken(calls[1..], 0, nc, ns, nskip);
    } else {
      FirstCallDecides(calls, nc, ns, nskip, skip, group);
    }
  }

  lemma FirstCallDecides(calls: seq<seq<nat>>, nc: nat, ns: nat, nskip: nat, skip: nat, group: nat)
    requires skip == nskip * nc && group == ns * nc && group > 0 && 0 < skip < |Joined(calls)|
    requires calls != [] && calls[0] != []
    ensures Taken(calls, 0, nc, ns, nskip) == Joined(calls)[skip..]
            <==> Joined(calls[1..]) == [] || |calls[0]| >= skip + group
  {
    hide Skipped;
    var first, rest := calls[0], Joined(calls[1..]);
    SkipIs(0, |first|, nc, ns, nskip, skip, group);
    var done := if |first| <= skip then 0 else |first| - skip;
    var more := Taken(calls[1..], done, nc, ns, nskip);
    if done >= group {
      AllTaken(calls[1..], done, nc, ns, nskip, skip, group);
      assert first[skip..] + rest == (first + rest)[skip..];
    } else {
      SkipsAtLeast(calls[1..], done, nc, ns, nskip, skip, group);
      if rest == [] {
        assert more == [] && first + rest == first;
      }
    }
  }
}
