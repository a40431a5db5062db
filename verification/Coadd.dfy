/** Sample coadding and Fowler sampling of LogicLib.c: accumulators that live across calls. */
module Coadd {
  import opened Grid

  const WORD := 0x1_0000_0000  // accumulators are 32 bits wide

  /** One accumulator addition. */
  function AddAt(acc: seq<nat>, p: int, v: nat): (r: seq<nat>)
    requires 0 <= p < |acc|
    ensures |r| == |acc|
  {
    acc[p := (acc[p] + v) % WORD]
  }

  /** The accumulator of stream pixel k: ns samples of nc channels per group, one slot per group and channel. */
  function Slot(nc: nat, ns: nat, k: nat): nat
    requires nc > 0 && ns > 0
  {
    MulMonotone(1, ns, nc);
    MulMonotone(0, k / (ns * nc), nc);
    Cell(nc, k / (ns * nc), k % nc)
  }

  lemma GroupPositive(nc: nat, ns: nat)
    requires nc > 0 && ns > 0
    ensures ns * nc > 0
  {
    MulMonotone(1, ns, nc);
  }

  /** Adding a run of stream pixels, the first of which is number `start`. */
  function Stream(acc: seq<nat>, nc: nat, ns: nat, start: nat, pixels: seq<nat>): (r: seq<nat>)
    requires nc > 0 && ns > 0
    requires InRange(|acc|, nc, ns, start, |pixels|)
    ensures |r| == |acc|
    decreases |pixels|
  {
    if pixels == [] then acc
    else
      var n := |pixels| - 1;
      AddAt(Stream(acc, nc, ns, start, pixels[..n]), Slot(nc, ns, start + n), pixels[n])
  }

  /** Every slot the run touches exists. */
  predicate InRange(len: nat, nc: nat, ns: nat, start: nat, n: nat)
    requires nc > 0 && ns > 0
  {
    forall k :: start <= k < start + n ==> Slot(nc, ns, k) < len
  }

  /** Splitting the stream over calls changes nothing. */
  lemma {:induction false} StreamSplits(acc: seq<nat>, nc: nat, ns: nat, start: nat, a: seq<nat>, b: seq<nat>)
    requires nc > 0 && ns > 0 && InRange(|acc|, nc, ns, start, |a| + |b|)
    ensures Stream(Stream(acc, nc, ns, start, a), nc, ns, start + |a|, b) == Stream(acc, nc, ns, start, a + b)
    decreases |b|
  {
    if b == [] {
      assert a + b == a;
    } else {
      var n := |b| - 1;
      StreamSplits(acc, nc, ns, start, a, b[..n]);
      assert (a + b)[..|a + b| - 1] == a + b[..n];
    }
  }

  // ---- what an accumulator ends up holding ----

  /** The sum of the pixels of the run that belong to slot p. */
  function SlotSum(nc: nat, ns: nat, start: nat, pixels: seq<nat>, p: nat): nat
    requires nc > 0 && ns > 0
    decreases |pixels|
  {
    if pixels == [] then 0
    else
      var n := |pixels| - 1;
      SlotSum(nc, ns, start, pixels[..n], p) + if Slot(nc, ns, start + n) == p then pixels[n] else 0
  }

  /** Closed form: each accumulator grows by exactly its own pixels, modulo the word size. */
  lemma {:induction false} StreamClosedForm(acc: seq<nat>, nc: nat, ns: nat, start: nat, pixels: seq<nat>, p: nat)
    requires nc > 0 && ns > 0 && InRange(|acc|, nc, ns, start, |pixels|) && p < |acc| && acc[p] < WORD
    ensures Stream(acc, nc, ns, start, pixels)[p] == (acc[p] + SlotSum(nc, ns, start, pixels, p)) % WORD
    decreases |pixels|
  {
    hide Slot;
    if pixels != [] {
      var n := |pixels| - 1;
      StreamClosedForm(acc, nc, ns, start, pixels[..n], p);
      if Slot(nc, ns, start + n) == p {
        ModAdd(acc[p] + SlotSum(nc, ns, start, pixels[..n], p), pixels[n]);
      }
    }
  }

  lemma ModAdd(a: nat, b: nat)
    ensures (a % WORD + b) % WORD == (a + b) % WORD
  {
  }

  /** Where stream pixel (group, sample, channel) goes. */
  lemma SlotOf(nc: nat, ns: nat, g: nat, s: nat, c: nat)
    requires s < ns && c < nc
    ensures Cell(nc, Cell(ns, g, s), c) >= 0
    ensures Slot(nc, ns, Cell(nc, Cell(ns, g, s), c)) == Cell(nc, g, c)
  {
    GroupPositive(nc, ns);
    var row := Cell(ns, g, s);
    var k := Cell(nc, row, c);
    MulMonotone(0, g, ns);
    MulMonotone(0, row, nc);
    CellSplit(nc, row, c);
    CellInside(nc, ns, s, c);
    MulSplit(g * ns, s, nc);
    assert g * ns * nc == g * (ns * nc);
    assert k == Cell(ns * nc, g, Cell(nc, s, c));
    assert nc * ns == ns * nc;
    CellSplit(ns * nc, g, Cell(nc, s, c));
  }

  /** The samples s' < s of channel c in group g, as far as the stream has them. */
  function SampleSum(pixels: seq<nat>, nc: nat, ns: nat, g: nat, c: nat, s: nat): nat {
    if s == 0 then 0
    else
      var k := Cell(nc, Cell(ns, g, s - 1), c);
      SampleSum(pixels, nc, ns, g, c, s - 1) + if 0 <= k < |pixels| then pixels[k] else 0
  }

  /** Stream pixel k is one of the first s samples of channel c in group g. */
  predicate IsSample(nc: nat, ns: nat, g: nat, c: nat, s: nat, k: nat)
    requires nc > 0
  {
    k % nc == c && Cell(ns, g, 0) <= k / nc < Cell(ns, g, s)
  }

  lemma {:induction false} SampleSumGrows(pixels: seq<nat>, nc: nat, ns: nat, g: nat, c: nat, s: nat, n: nat)
    requires c < nc && n < |pixels|
    ensures SampleSum(pixels[..n + 1], nc, ns, g, c, s)
         == SampleSum(pixels[..n], nc, ns, g, c, s) + if IsSample(nc, ns, g, c, s, n) then pixels[n] else 0
    decreases s
  {
    if s > 0 {
      hide IsSample;
      SampleSumGrows(pixels, nc, ns, g, c, s - 1, n);
      SampleStep(nc, ns, g, c, s - 1, n);
    } else {
      NoSampleBelow(nc, ns, g, c, n);
    }
  }

  lemma NoSampleBelow(nc: nat, ns: nat, g: nat, c: nat, k: nat)
    requires c < nc
    ensures !IsSample(nc, ns, g, c, 0, k)
  {
  }

  lemma SampleStep(nc: nat, ns: nat, g: nat, c: nat, s: nat, k: nat)
    requires c < nc
    ensures var p := Cell(nc, Cell(ns, g, s), c);
            && p >= 0
            && (IsSample(nc, ns, g, c, s + 1, k) <==> IsSample(nc, ns, g, c, s, k) || k == p)
            && (k == p ==> !IsSample(nc, ns, g, c, s, k))
  {
    var row := Cell(ns, g, s);
    MulMonotone(0, g, ns);
    MulMonotone(0, row, nc);
    CellSplit(nc, row, c);
    assert k == Cell(nc, k / nc, k % nc);
  }

  lemma SampleIsSlot(nc: nat, ns: nat, g: nat, c: nat, k: nat)
    requires ns > 0 && c < nc
    ensures IsSample(nc, ns, g, c, ns, k) <==> Slot(nc, ns, k) == Cell(nc, g, c)
  {
    hide Slot, IsSample;
    var q, r := k / nc, k % nc;
    var g', s' := q / ns, q % ns;
    CellDigits(nc, ns, k);
    SlotOf(nc, ns, g', s', r);
    SampleDigits(nc, ns, g, c, k);
    if Cell(nc, g', r) == Cell(nc, g, c) {
      CellInjective(nc, g', r, g, c);
    }
  }

  lemma CellDigits(nc: nat, ns: nat, k: nat)
    requires nc > 0 && ns > 0
    ensures k / nc / ns >= 0 && k == Cell(nc, Cell(ns, k / nc / ns, k / nc % ns), k % nc)
  {
  }

  lemma SampleDigits(nc: nat, ns: nat, g: nat, c: nat, k: nat)
    requires ns > 0 && c < nc
    ensures IsSample(nc, ns, g, c, ns, k) <==> k % nc == c && k / nc / ns == g
  {
    var q := k / nc;
    if Cell(ns, g, 0) <= q < Cell(ns, g, ns) {
      CellSplit(ns, g, q - Cell(ns, g, 0));
    }
    if q / ns == g {
      assert q == Cell(ns, g, q % ns);
    }
  }

  /** Physically: an accumulator collects the ns samples of its own channel in its own group, and nothing else. */
  lemma {:induction false} SlotSumIsSampleSum(nc: nat, ns: nat, pixels: seq<nat>, g: nat, c: nat)
    requires ns > 0 && c < nc
    ensures Cell(nc, g, c) >= 0
    ensures SlotSum(nc, ns, 0, pixels, Cell(nc, g, c)) == SampleSum(pixels, nc, ns, g, c, ns)
    decreases |pixels|
  {
    MulMonotone(0, g, nc);
    if pixels == [] {
      NoSamples(nc, ns, g, c, ns);
    } else {
      var n := |pixels| - 1;
      SlotSumIsSampleSum(nc, ns, pixels[..n], g, c);
      SampleSumGrows(pixels, nc, ns, g, c, ns, n);
      assert pixels[..n + 1] == pixels;
      SampleIsSlot(nc, ns, g, c, n);
    }
  }

  lemma {:induction false} NoSamples(nc: nat, ns: nat, g: nat, c: nat, s: nat)
    ensures SampleSum([], nc, ns, g, c, s) == 0
    decreases s
  {
    if s > 0 {
      NoSamples(nc, ns, g, c, s - 1);
    }
  }

  // ---- the counters ----

  /** The stream pixels the counters stand for: mixed-radix digits of the pixel count. */
  function Count(gblPix: nat, sampleCntr: nat, chCntr: nat, nc: nat, ns: nat): nat
    requires nc > 0
  {
    MulMonotone(0, gblPix / nc * ns + sampleCntr, nc);
    MulMonotone(0, gblPix / nc, ns);
    Cell(nc, Cell(ns, gblPix / nc, sampleCntr), chCntr)
  }

  ghost predicate Digits(gblPix: nat, sampleCntr: nat, chCntr: nat, nc: nat, ns: nat) {
    ns > 0 && chCntr < nc && sampleCntr < ns && gblPix % nc == 0
  }

  lemma CountSlot(gblPix: nat, sampleCntr: nat, chCntr: nat, nc: nat, ns: nat)
    requires Digits(gblPix, sampleCntr, chCntr, nc, ns)
    ensures Slot(nc, ns, Count(gblPix, sampleCntr, chCntr, nc, ns)) == gblPix + chCntr
  {
    SlotOf(nc, ns, gblPix / nc, sampleCntr, chCntr);
  }

  /** One more pixel moves the counters to the digits of the next count. */
  lemma CountNext(gblPix: nat, sampleCntr: nat, chCntr: nat, nc: nat, ns: nat)
    requires Digits(gblPix, sampleCntr, chCntr, nc, ns)
    ensures var ch := if chCntr + 1 == nc then 0 else chCntr + 1;
            var sam := if chCntr + 1 == nc then sampleCntr + 1 else sampleCntr;
            var (g', s', c') := if sam == ns then (gblPix + nc, 0, 0) else (gblPix, sam, ch);
            Digits(g', s', c', nc, ns) && Count(g', s', c', nc, ns) == Count(gblPix, sampleCntr, chCntr, nc, ns) + 1
  {
    var g := gblPix / nc;
    assert gblPix == Cell(nc, g, 0);
    MulSplit(g, 1, nc);
    CellSplit(nc, g + 1, 0);
    MulSplit(g, 1, ns);
    MulSplit(g * ns + sampleCntr, 1, nc);
  }

  class Coadder {
    var gblPix: nat
    var sampleCntr: nat
    var chCntr: nat

    constructor ()
      ensures gblPix == 0 && sampleCntr == 0 && chCntr == 0
    {
      gblPix, sampleCntr, chCntr := 0, 0, 0;
    }

    method ResetCounters()
      modifies this
      ensures gblPix == 0 && sampleCntr == 0 && chCntr == 0
    {
      sampleCntr, gblPix, chCntr := 0, 0, 0;
    }

    ghost predicate Valid(nc: nat, ns: nat)
      reads this
    {
      Digits(gblPix, sampleCntr, chCntr, nc, ns)
    }

    ghost function Done(nc: nat, ns: nat): nat
      reads this
      requires nc > 0
    {
      Count(gblPix, sampleCntr, chCntr, nc, ns)
    }

    /** The loop both sample coadders share, over raw pixels from..nelems. */
    method Accumulate(raw: array<nat>, from: nat, nelems: nat, coad: array<nat>, ns: nat, nc: nat)
      requires Valid(nc, ns) && raw != coad && from <= nelems <= raw.Length
      requires InRange(coad.Length, nc, ns, Done(nc, ns), nelems - from)
      modifies this, coad
      ensures Valid(nc, ns) && Done(nc, ns) == old(Done(nc, ns)) + (nelems - from)
      ensures coad[..] == Stream(old(coad[..]), nc, ns, old(Done(nc, ns)), raw[from..nelems])
    {
      hide Slot, Count, InRange, AddAt;
      ghost var start, was := Done(nc, ns), coad[..];
      var pix := from;
      assert raw[from..from] == [];
      InRangeNone(coad.Length, nc, ns, start);
      while pix < nelems
        invariant from <= pix <= nelems
        invariant Valid(nc, ns) && Done(nc, ns) == start + (pix - from)
        invariant InRange(coad.Length, nc, ns, start, pix - from)
        invariant coad[..] == Stream(was, nc, ns, start, raw[from..pix])
      {
        CountSlot(gblPix, sampleCntr, chCntr, nc, ns);
        CountNext(gblPix, sampleCntr, chCntr, nc, ns);
        InRangeAt(coad.Length, nc, ns, start, nelems - from, pix - from);
        StreamOne(was, nc, ns, start, raw[from..pix + 1]);
        assert raw[from..pix + 1][..pix - from] == raw[from..pix];
        coad[gblPix + chCntr] := (coad[gblPix + chCntr] + raw[pix]) % WORD;
        AddOne(Stream(was, nc, ns, start, raw[from..pix]), gblPix + chCntr, raw[pix], coad[..]);
        chCntr := chCntr + 1;
        if chCntr == nc {
          chCntr := 0;
          sampleCntr := sampleCntr + 1;
        }
        if sampleCntr == ns {
          gblPix := gblPix + nc;
          sampleCntr := 0;
          chCntr := 0;
        }
        pix := pix + 1;
      }
    }

    /** samplesCoadd16To32: the skip is computed but not used. */
    method SamplesCoadd16To32(raw: array<nat>, coad: array<nat>, nelems: nat, ns: nat, nc: nat, nskip: nat)
      requires Valid(nc, ns) && raw != coad && nelems <= raw.Length
      requires InRange(coad.Length, nc, ns, Done(nc, ns), nelems)
      modifies this, coad
      ensures Valid(nc, ns) && Done(nc, ns) == old(Done(nc, ns)) + nelems
      ensures coad[..] == Stream(old(coad[..]), nc, ns, old(Done(nc, ns)), raw[..nelems])
    {
      Accumulate(raw, 0, nelems, coad, ns, nc);
      assert raw[0..nelems] == raw[..nelems];
    }

    /** samplesCoadd32To32: skips nskip pixels per channel for as long as no group has been completed. */
    method SamplesCoadd32To32(raw: array<nat>, coad: array<nat>, nelems: nat, ns: nat, nc: nat, nskip: nat)
      requires Valid(nc, ns) && raw != coad && nelems <= raw.Length
      requires InRange(coad.Length, nc, ns, Done(nc, ns), nelems - Skipped(Done(nc, ns), nelems, nc, ns, nskip))
      modifies this, coad
      ensures var skip := Skipped(old(Done(nc, ns)), nelems, nc, ns, nskip);
              && Valid(nc, ns) && Done(nc, ns) == old(Done(nc, ns)) + (nelems - skip)
              && coad[..] == Stream(old(coad[..]), nc, ns, old(Done(nc, ns)), raw[skip..nelems])
    {
      FirstGroup(gblPix, sampleCntr, chCntr, nc, ns);
      MulMonotone(0, nskip, nc);
      var inipix := if gblPix == 0 then nskip * nc else 0;
      if inipix < nelems {
        Accumulate(raw, inipix, nelems, coad, ns, nc);
      } else {
        assert raw[nelems..nelems] == [];
      }
    }
  }

  /** The pixels a call of the 32-bit version leaves out, by how many stream pixels came before it. */
  function Skipped(done: nat, nelems: nat, nc: nat, ns: nat, nskip: nat): (n: nat)
    ensures n <= nelems
  {
    MulMonotone(0, nskip, nc);
    if done >= ns * nc then 0 else if nskip * nc < nelems then nskip * nc else nelems
  }

  lemma FirstGroup(gblPix: nat, sampleCntr: nat, chCntr: nat, nc: nat, ns: nat)
    requires Digits(gblPix, sampleCntr, chCntr, nc, ns)
    ensures gblPix == 0 <==> Count(gblPix, sampleCntr, chCntr, nc, ns) < ns * nc
  {
    var g := gblPix / nc;
    assert gblPix == g * nc;
    if g == 0 {
      CellInside(nc, ns, sampleCntr, chCntr);
      assert nc * ns == ns * nc;
    } else {
      MulMonotone(1, g, ns);
      MulMonotone(ns, g * ns + sampleCntr, nc);
      MulMonotone(1, g, nc);
    }
  }

  lemma InRangeNone(len: nat, nc: nat, ns: nat, start: nat)
    requires nc > 0 && ns > 0
    ensures InRange(len, nc, ns, start, 0)
  {
  }

  lemma InRangeAt(len: nat, nc: nat, ns: nat, start: nat, n: nat, i: nat)
    requires nc > 0 && ns > 0 && InRange(len, nc, ns, start, n) && i < n
    ensures Slot(nc, ns, start + i) < len
    ensures InRange(len, nc, ns, start, i) && InRange(len, nc, ns, start, i + 1)
  {
    hide Slot;
  }

  lemma StreamOne(acc: seq<nat>, nc: nat, ns: nat, start: nat, pixels: seq<nat>)
    requires nc > 0 && ns > 0 && InRange(|acc|, nc, ns, start, |pixels|) && pixels != []
    ensures InRange(|acc|, nc, ns, start, |pixels| - 1) && Slot(nc, ns, start + |pixels| - 1) < |acc|
    ensures Stream(acc, nc, ns, start, pixels)
         == AddAt(Stream(acc, nc, ns, start, pixels[..|pixels| - 1]), Slot(nc, ns, start + |pixels| - 1),
                  pixels[|pixels| - 1])
  {
    hide Slot, AddAt;
  }

  lemma AddOne(acc: seq<nat>, p: nat, v: nat, after: seq<nat>)
    requires p < |acc| && |after| == |acc| && after == acc[p := (acc[p] + v) % WORD]
    ensures after == AddAt(acc, p, v)
  {
  }
}
