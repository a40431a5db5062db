/** The DMA allocator: a list of blocks sorted by address between two empty sentinels, first fit. */
module Allocator {

  const PAGE_SIZE := 4096
  const WORD := 0x1_0000_0000_0000_0000   // unsigned long arithmetic wraps here

  /** PAGE_ALIGN on an unsigned long. */
  function PageAlign(x: nat): nat {
    (x + PAGE_SIZE - 1) % WORD / PAGE_SIZE * PAGE_SIZE
  }

  /** The block size a request leads to. */
  function RequestBytes(kilobytes: nat): nat {
    PageAlign(kilobytes * 1024 % WORD)
  }

  lemma PageAlignRounds(x: nat)
    requires x < WORD
    ensures PageAlign(x) % PAGE_SIZE == 0
    ensures x <= WORD - PAGE_SIZE ==> x <= PageAlign(x) < x + PAGE_SIZE
    ensures x > WORD - PAGE_SIZE ==> PageAlign(x) == 0
  {
    var y := x + PAGE_SIZE - 1;
    if x <= WORD - PAGE_SIZE {
      assert y % WORD == y;
    } else {
      assert y % WORD == y - WORD;
      assert (y - WORD) / PAGE_SIZE == 0;
    }
  }

  /** Requests are rounded up to the next page, until the unsigned arithmetic wraps to an empty block. */
  lemma RequestIsRounded(kilobytes: nat)
    ensures WholePages(RequestBytes(kilobytes))
    ensures 0 < kilobytes && kilobytes * 1024 + PAGE_SIZE <= WORD ==>
              kilobytes * 1024 <= RequestBytes(kilobytes) < kilobytes * 1024 + PAGE_SIZE
    ensures RequestBytes(kilobytes) == 0 <==> kilobytes * 1024 % WORD == 0 || kilobytes * 1024 % WORD > WORD - PAGE_SIZE
  {
    hide PageAlign;
    PageAlignRounds(kilobytes * 1024 % WORD);
    if kilobytes * 1024 < WORD {
      assert kilobytes * 1024 % WORD == kilobytes * 1024;
    }
  }

  /** A page is four kilobytes; the request counts modulo 2^54 kilobytes and its pages modulo 2^52. */
  lemma RequestInPages(kilobytes: nat)
    ensures RequestBytes(kilobytes) == (kilobytes % 18014398509481984 + 3) / 4 % 4503599627370496 * 4096
  {
    var kb, rounds := kilobytes % 18014398509481984, kilobytes / 18014398509481984;
    assert kilobytes * 1024 == kb * 1024 + rounds * 18446744073709551616;
    BytesOfRequest(kb, rounds);
    if kb * 1024 + 4095 < 18446744073709551616 {
      assert (kb * 1024 + 4095) / 4096 == (kb + 3) / 4;
    } else {
      assert (kb + 3) / 4 == 4503599627370496;
    }
  }

  lemma BytesOfRequest(kb: nat, rounds: nat)
    requires kb < 18014398509481984
    ensures (kb * 1024 + rounds * 18446744073709551616) % 18446744073709551616 == kb * 1024
  {
  }

  datatype Block = Block(address: nat, size: nat)
  {
    function End(): nat { address + size }
  }

  /** The list is sorted, consists of whole pages from lo on, and spans the region from lo to hi. */
  ghost predicate Region(bs: seq<Block>, lo: nat, hi: nat) {
    && |bs| >= 2
    && bs[0] == Block(lo, 0) && bs[|bs| - 1] == Block(hi, 0)
    && (forall i :: 0 <= i < |bs| - 1 ==> bs[i].End() <= bs[i + 1].address)
    && (forall i :: 0 <= i < |bs| ==> WholePages(bs[i].size))
    && (forall i :: 0 <= i < |bs| - 1 ==> OnPage(bs[i].address, lo))
  }

  predicate WholePages(size: nat) { size % PAGE_SIZE == 0 }

  predicate OnPage(address: nat, lo: nat) { (address - lo) % PAGE_SIZE == 0 }

  /** A block that starts and ends on a page, counted from the start of the region. */
  lemma EndOnPage(b: Block, lo: nat)
    requires OnPage(b.address, lo) && WholePages(b.size)
    ensures OnPage(b.End(), lo)
  {
  }

  /** Blocks further down the list start no earlier than blocks before them end. */
  lemma {:induction false} Ordered(bs: seq<Block>, lo: nat, hi: nat, i: nat, j: nat)
    requires Region(bs, lo, hi) && i < j < |bs|
    ensures bs[i].End() <= bs[j].address
    decreases j - i
  {
    hide WholePages, OnPage;
    if i + 1 < j {
      Ordered(bs, lo, hi, i, j - 1);
    }
  }

  /** Any two blocks are disjoint and every block lies in the region. */
  lemma BlocksDisjoint(bs: seq<Block>, lo: nat, hi: nat, i: nat, j: nat)
    requires Region(bs, lo, hi) && i < |bs| && j < |bs| && i != j
    ensures bs[i].End() <= bs[j].address || bs[j].End() <= bs[i].address
    ensures lo <= bs[i].address && bs[i].End() <= hi
  {
    hide WholePages, OnPage;
    Ordered(bs, lo, hi, if i < j then i else j, if i < j then j else i);
    if i > 0 { Ordered(bs, lo, hi, 0, i); }
    if i < |bs| - 1 { Ordered(bs, lo, hi, i, |bs| - 1); }
  }

  // ---- conservation ----

  function Sizes(bs: seq<Block>): nat {
    if bs == [] then 0 else Sizes(bs[..|bs| - 1]) + bs[|bs| - 1].size
  }

  function Gaps(bs: seq<Block>): int {
    if |bs| <= 1 then 0 else Gaps(bs[..|bs| - 1]) + (bs[|bs| - 1].address - bs[|bs| - 2].End())
  }

  lemma {:induction false} Telescope(bs: seq<Block>)
    requires bs != []
    ensures Sizes(bs) + Gaps(bs) == bs[|bs| - 1].End() - bs[0].address
  {
    if |bs| > 1 {
      Telescope(bs[..|bs| - 1]);
    } else {
      assert bs[..0] == [];
    }
  }

  /** Free and allocated bytes always add up to the region. */
  lemma NothingLost(bs: seq<Block>, lo: nat, hi: nat)
    requires Region(bs, lo, hi)
    ensures Sizes(bs) + Gaps(bs) == hi - lo
  {
    hide WholePages, OnPage;
    Telescope(bs);
  }

  // ---- first fit ----

  predicate GapFits(bs: seq<Block>, i: nat, bytes: nat) {
    i + 1 < |bs| && bs[i + 1].address - bs[i].End() >= bytes
  }

  /** The block the search stops at: the last one when no gap is large enough. */
  function FirstFit(bs: seq<Block>, bytes: nat, from: nat): (i: nat)
    requires from < |bs|
    ensures from <= i < |bs|
    ensures i + 1 < |bs| ==> GapFits(bs, i, bytes)
    ensures forall j :: from <= j < i ==> !GapFits(bs, j, bytes)
    decreases |bs| - from
  {
    if from + 1 == |bs| || GapFits(bs, from, bytes) then from else FirstFit(bs, bytes, from + 1)
  }

  function Insert(bs: seq<Block>, i: nat, bytes: nat): seq<Block>
    requires i < |bs|
  {
    bs[..i + 1] + [Block(bs[i].End(), bytes)] + bs[i + 1..]
  }

  /** Address 0 stands for failure. */
  function Allocate(bs: seq<Block>, bytes: nat, nodeAvailable: bool): (r: (seq<Block>, nat))
    requires bs != []
  {
    var i := FirstFit(bs, bytes, 0);
    if i + 1 == |bs| || !nodeAvailable then (bs, 0) else (Insert(bs, i, bytes), bs[i].End())
  }

  /** The bytes from p on are inside the region and used by no block. */
  ghost predicate FreeRange(bs: seq<Block>, lo: nat, hi: nat, p: nat, bytes: nat) {
    && lo <= p && p + bytes <= hi
    && forall i :: 0 <= i < |bs| ==> p + bytes <= bs[i].address || bs[i].End() <= p
  }

  /** A free range lies in a gap that fits. */
  lemma {:induction false} GapAround(bs: seq<Block>, lo: nat, hi: nat, p: nat, bytes: nat, i: nat) returns (g: nat)
    requires Region(bs, lo, hi) && FreeRange(bs, lo, hi, p, bytes)
    requires i + 1 < |bs| && bs[i].End() <= p
    ensures GapFits(bs, g, bytes) && bs[g].End() <= p
    decreases |bs| - i
  {
    hide WholePages, OnPage;
    if p + bytes <= bs[i + 1].address {
      g := i;
    } else if i + 2 < |bs| {
      g := GapAround(bs, lo, hi, p, bytes, i + 1);
    } else {
      assert false;
    }
  }

  lemma GapIsFree(bs: seq<Block>, lo: nat, hi: nat, i: nat, bytes: nat)
    requires Region(bs, lo, hi) && GapFits(bs, i, bytes)
    ensures FreeRange(bs, lo, hi, bs[i].End(), bytes)
  {
    hide Region;
    BlocksDisjoint(bs, lo, hi, i, i + 1);
    BlocksDisjoint(bs, lo, hi, i + 1, i);
    forall j | 0 <= j < |bs|
      ensures bs[i].End() + bytes <= bs[j].address || bs[j].End() <= bs[i].End()
    {
      if j < i { Ordered(bs, lo, hi, j, i); }
      if i + 1 < j { Ordered(bs, lo, hi, i + 1, j); }
    }
  }

  /** Completeness: first fit finds the lowest free range there is, and fails only when there is none. */
  lemma FirstFitIsLowest(bs: seq<Block>, lo: nat, hi: nat, bytes: nat)
    requires Region(bs, lo, hi) && lo > 0
    ensures var r := Allocate(bs, bytes, true);
            && (r.1 == 0 <==> forall p: nat :: !FreeRange(bs, lo, hi, p, bytes))
            && (r.1 != 0 ==> FreeRange(bs, lo, hi, r.1, bytes))
            && (r.1 != 0 ==> forall p: nat :: FreeRange(bs, lo, hi, p, bytes) ==> r.1 <= p)
  {
    hide WholePages, OnPage;
    var i := FirstFit(bs, bytes, 0);
    if i + 1 < |bs| {
      GapIsFree(bs, lo, hi, i, bytes);
    }
    forall p: nat | FreeRange(bs, lo, hi, p, bytes)
      ensures i + 1 < |bs| && bs[i].End() <= p
    {
      var g := GapAround(bs, lo, hi, p, bytes, 0);
      assert i <= g;
      if i < g { Ordered(bs, lo, hi, i, g); }
    }
  }

  lemma InsertAt(bs: seq<Block>, i: nat, bytes: nat, k: nat)
    requires i < |bs| && k <= |bs|
    ensures |Insert(bs, i, bytes)| == |bs| + 1
    ensures Insert(bs, i, bytes)[k] == if k <= i then bs[k] else if k
        == i + 1 then Block(bs[i].End(), bytes) else bs[k - 1]
  {
  }

  lemma InsertKeepsRegion(bs: seq<Block>, lo: nat, hi: nat, i: nat, bytes: nat)
    requires Region(bs, lo, hi) && GapFits(bs, i, bytes) && WholePages(bytes)
    ensures Region(Insert(bs, i, bytes), lo, hi)
    ensures Sizes(Insert(bs, i, bytes)) == Sizes(bs) + bytes
  {
    hide Sizes, Insert, WholePages, OnPage;
    InsertSizes(bs, i, bytes);
    var after := Insert(bs, i, bytes);
    InsertAt(bs, i, bytes, 0);
    InsertAt(bs, i, bytes, |bs|);
    forall k | 0 <= k < |bs|
      ensures after[k].End() <= after[k + 1].address
      ensures WholePages(after[k].size) && OnPage(after[k].address, lo)
    {
      InsertedPair(bs, lo, hi, i, bytes, k);
    }
  }

  lemma InsertedPair(bs: seq<Block>, lo: nat, hi: nat, i: nat, bytes: nat, k: nat)
    requires Region(bs, lo, hi) && GapFits(bs, i, bytes) && WholePages(bytes) && k < |bs|
    ensures |Insert(bs, i, bytes)| == |bs| + 1
    ensures var (b, next) := (Insert(bs, i, bytes)[k], Insert(bs, i, bytes)[k + 1]);
            b.End() <= next.address && WholePages(b.size) && OnPage(b.address, lo)
  {
    hide Insert, WholePages, OnPage;
    InsertAt(bs, i, bytes, k);
    InsertAt(bs, i, bytes, k + 1);
    EndOnPage(bs[i], lo);
  }

  lemma InsertSizes(bs: seq<Block>, i: nat, bytes: nat)
    requires i < |bs|
    ensures Sizes(Insert(bs, i, bytes)) == Sizes(bs) + bytes
  {
    SizesInsert(bs, i + 1, Block(bs[i].End(), bytes));
  }

  lemma {:induction false} SizesConcat(a: seq<Block>, b: seq<Block>)
    ensures Sizes(a + b) == Sizes(a) + Sizes(b)
    decreases |b|
  {
    if b == [] {
      assert a + b == a;
    } else {
      SizesConcat(a, b[..|b| - 1]);
      assert (a + b)[..|a + b| - 1] == a + b[..|b| - 1];
    }
  }

  lemma SizesInsert(bs: seq<Block>, i: nat, b: Block)
    requires i <= |bs|
    ensures Sizes(bs[..i] + [b] + bs[i..]) == Sizes(bs) + b.size
  {
    SizesConcat(bs[..i], [b]);
    SizesConcat(bs[..i] + [b], bs[i..]);
    SizesConcat(bs[..i], bs[i..]);
    assert bs[..i] + bs[i..] == bs;
    assert Sizes([b]) == b.size by { assert [b][..0] == []; }
  }

  // ---- freeing ----

  /** A block a client holds: neither sentinel. */
  ghost predicate Live(bs: seq<Block>, address: nat) {
    exists j :: 1 <= j < |bs| - 1 && bs[j].address == address
  }

  /** The first block after the head with this address. */
  function Find(bs: seq<Block>, address: nat, from: nat): (j: nat)
    requires 1 <= from <= |bs|
    ensures from <= j <= |bs|
    ensures j < |bs| ==> bs[j].address == address
    ensures forall k :: from <= k < j ==> bs[k].address != address
    decreases |bs| - from
  {
    if from == |bs| || bs[from].address == address then from else Find(bs, address, from + 1)
  }

  function Remove(bs: seq<Block>, j: nat): seq<Block>
    requires j < |bs|
  {
    bs[..j] + bs[j + 1..]
  }

  function Free(bs: seq<Block>, address: nat): seq<Block>
    requires |bs| >= 2
  {
    var j := Find(bs, address, 1);
    if j == |bs| then bs else Remove(bs, j)
  }

  lemma RemoveKeepsRegion(bs: seq<Block>, lo: nat, hi: nat, j: nat)
    requires Region(bs, lo, hi) && 1 <= j < |bs| - 1
    ensures Region(Remove(bs, j), lo, hi)
  {
    hide WholePages, OnPage;
    var after := Remove(bs, j);
    forall k | 0 <= k < |after| - 1
      ensures after[k].End() <= after[k + 1].address
    {
      if k + 1 == j {
        Ordered(bs, lo, hi, k, k + 2);
      } else if k >= j {
        assert after[k] == bs[k + 1] && after[k + 1] == bs[k + 2];
      }
    }
  }

  lemma RemoveAt(bs: seq<Block>, j: nat, k: nat)
    requires j < |bs| && k < |bs| - 1
    ensures |Remove(bs, j)| == |bs| - 1 && Remove(bs, j)[k] == if k < j then bs[k] else bs[k + 1]
  {
  }

  lemma SizesRemove(bs: seq<Block>, j: nat)
    requires j < |bs|
    ensures Sizes(Remove(bs, j)) == Sizes(bs) - bs[j].size
  {
    hide Sizes;
    var rest := Remove(bs, j);
    SizesInsert(rest, j, bs[j]);
    assert rest[..j] == bs[..j] && rest[j..] == bs[j + 1..];
    assert bs[..j] + [bs[j]] + bs[j + 1..] == bs;
  }

  lemma FindLive(bs: seq<Block>, address: nat, from: nat, j: nat)
    requires 1 <= from <= j < |bs| && bs[j].address == address
    ensures Find(bs, address, from) <= j
    decreases j - from
  {
  }

  lemma FreeKeepsRegion(bs: seq<Block>, lo: nat, hi: nat, address: nat)
    requires Region(bs, lo, hi) && Live(bs, address)
    ensures 1 <= Find(bs, address, 1) < |bs| - 1
    ensures Region(Free(bs, address), lo, hi)
    ensures Sizes(Free(bs, address)) == Sizes(bs) - bs[Find(bs, address, 1)].size
  {
    hide WholePages, OnPage;
    var j :| 1 <= j < |bs| - 1 && bs[j].address == address;
    FindLive(bs, address, 1, j);
    RemoveKeepsRegion(bs, lo, hi, Find(bs, address, 1));
    SizesRemove(bs, Find(bs, address, 1));
  }

  /** Releasing keeps the list in order unless the address is that of the tail, which is then lost. */
  lemma FreeKeepsRegionIff(bs: seq<Block>, lo: nat, hi: nat, address: nat)
    requires Region(bs, lo, hi)
    ensures Region(Free(bs, address), lo, hi) <==> Live(bs, address) || address != hi
  {
    var j := Find(bs, address, 1);
    if Live(bs, address) {
      FreeKeepsRegion(bs, lo, hi, address);
    } else if address == hi {
      FindLive(bs, address, 1, |bs| - 1);
      var after := Free(bs, address);
      if |after| >= 2 {
        assert after[|after| - 1] == bs[|bs| - 2];
      }
    } else {
      assert j == |bs|;
    }
  }

  /** In terms of the gap found: the list is restored unless the block in front of the gap is empty. */
  lemma AllocateThenFreeAt(bs: seq<Block>, lo: nat, hi: nat, bytes: nat, i: nat)
    requires Region(bs, lo, hi) && i == FirstFit(bs, bytes, 0) && i + 1 < |bs|
    ensures Free(Insert(bs, i, bytes), bs[i].End()) == bs <==> i == 0 || bs[i].size > 0
  {
    hide Region, Find, FirstFit;
    if i == 0 || bs[i].size > 0 {
      NewBlockIsFreed(bs, lo, hi, bytes, i);
    } else {
      EmptyFitsFirst(bs, lo, hi, bytes);
      EmptyBlockIsFreed(bs, bytes, i);
    }
  }

  lemma NewBlockIsFreed(bs: seq<Block>, lo: nat, hi: nat, bytes: nat, i: nat)
    requires Region(bs, lo, hi) && i < |bs| && (i == 0 || bs[i].size > 0)
    ensures Free(Insert(bs, i, bytes), bs[i].End()) == bs
  {
    hide Region, Find;
    var after, address := Insert(bs, i, bytes), bs[i].End();
    InsertAt(bs, i, bytes, i + 1);
    FindLive(after, address, 1, i + 1);
    AddressIsNew(bs, lo, hi, i, after);
    assert Find(after, address, 1) == i + 1;
    assert Remove(after, i + 1) == bs;
  }

  lemma EmptyBlockIsFreed(bs: seq<Block>, bytes: nat, i: nat)
    requires 0 < i < |bs| && bs[i].size == 0 && bytes > 0
    ensures Free(Insert(bs, i, bytes), bs[i].End()) != bs
  {
    hide Find;
    var after, address := Insert(bs, i, bytes), bs[i].End();
    InsertAt(bs, i, bytes, i);
    InsertAt(bs, i, bytes, i + 1);
    FindLive(after, address, 1, i);
    assert Remove(after, Find(after, address, 1))[i] == after[i + 1];
  }

  /**
   * Freeing the address just returned restores the list exactly when the block is empty or no block had
   * that address before: the search for the address stops at the first block that has it.
   */
  lemma AllocateThenFree(bs: seq<Block>, lo: nat, hi: nat, bytes: nat)
    requires Region(bs, lo, hi) && lo > 0
    requires Allocate(bs, bytes, true).1 != 0
    ensures var (after, address) := Allocate(bs, bytes, true);
            Free(after, address) == bs <==> bytes == 0 || !Live(bs, address)
  {
    hide Free;
    var i := FirstFit(bs, bytes, 0);
    AllocateThenFreeAt(bs, lo, hi, bytes, i);
    EmptyFitsFirst(bs, lo, hi, bytes);
    if bytes > 0 {
      HeldIffEmptyBefore(bs, lo, hi, bytes, i);
    }
  }

  lemma HeldIffEmptyBefore(bs: seq<Block>, lo: nat, hi: nat, bytes: nat, i: nat)
    requires Region(bs, lo, hi) && GapFits(bs, i, bytes) && bytes > 0
    ensures Live(bs, bs[i].End()) <==> i > 0 && bs[i].size == 0
  {
    hide WholePages, OnPage;
    if i > 0 && bs[i].size == 0 {
      assert bs[i].address == bs[i].End();
    }
    forall j | 1 <= j < |bs| - 1 && bs[j].address == bs[i].End()
      ensures i > 0 && bs[i].size == 0
    {
      if i < j {
        GapBefore(bs, lo, hi, i, j);
      } else if j < i {
        Ordered(bs, lo, hi, j, i);
      }
    }
  }

  lemma GapBefore(bs: seq<Block>, lo: nat, hi: nat, i: nat, j: nat)
    requires Region(bs, lo, hi) && i < j < |bs|
    ensures bs[i + 1].address <= bs[j].address
  {
    hide WholePages, OnPage;
    if i + 1 < j {
      Ordered(bs, lo, hi, i + 1, j);
    }
  }

  lemma AddressIsNew(bs: seq<Block>, lo: nat, hi: nat, i: nat, after: seq<Block>)
    requires Region(bs, lo, hi) && i < |bs| && (i == 0 || bs[i].size > 0)
    requires |after| > i && forall k :: 0 <= k <= i ==> after[k] == bs[k]
    ensures forall k :: 1 <= k <= i ==> after[k].address != bs[i].End()
  {
    hide WholePages, OnPage;
    forall k | 1 <= k <= i
      ensures after[k].address != bs[i].End()
    {
      if k < i { Ordered(bs, lo, hi, k, i); }
    }
  }

  lemma EmptyFitsFirst(bs: seq<Block>, lo: nat, hi: nat, bytes: nat)
    requires Region(bs, lo, hi)
    ensures bytes == 0 ==> FirstFit(bs, bytes, 0) == 0
  {
    hide WholePages, OnPage;
    Ordered(bs, lo, hi, 0, 1);
  }

  /** A freed block's space can be had again, at its address or below. */
  lemma FreeThenAllocate(bs: seq<Block>, lo: nat, hi: nat, address: nat, bytes: nat)
    requires Region(bs, lo, hi) && lo > 0 && Live(bs, address)
    requires bytes <= bs[Find(bs, address, 1)].size
    ensures 0 < Allocate(Free(bs, address), bytes, true).1 <= address
  {
    hide Region, Allocate, Remove, Find, FreeRange;
    FreeKeepsRegion(bs, lo, hi, address);
    FreedIsFree(bs, lo, hi, Find(bs, address, 1), bytes);
    FirstFitIsLowest(Free(bs, address), lo, hi, bytes);
  }

  lemma FreedIsFree(bs: seq<Block>, lo: nat, hi: nat, j: nat, bytes: nat)
    requires Region(bs, lo, hi) && 1 <= j < |bs| - 1 && bytes <= bs[j].size
    ensures FreeRange(Remove(bs, j), lo, hi, bs[j].address, bytes)
  {
    hide Region, Remove;
    RemoveAt(bs, j, 0);
    BlocksDisjoint(bs, lo, hi, j, 0);
    forall k | 0 <= k < |bs| - 1
      ensures bs[j].address + bytes <= Remove(bs, j)[k].address || Remove(bs, j)[k].End() <= bs[j].address
    {
      RemoveAt(bs, j, k);
      if k < j {
        Ordered(bs, lo, hi, k, j);
      } else {
        Ordered(bs, lo, hi, j, k + 1);
      }
    }
  }

  // ---- every run ----

  datatype Op = Request(kilobytes: nat, nodeAvailable: bool) | Release(address: nat)

  function Step(bs: seq<Block>, op: Op): seq<Block>
    requires |bs| >= 2
  {
    match op
    case Request(kilobytes, nodeAvailable) => Allocate(bs, RequestBytes(kilobytes), nodeAvailable).0
    case Release(address) => Free(bs, address)
  }

  /** Clients release only addresses they hold. */
  ghost predicate Allowed(bs: seq<Block>, op: Op) {
    op.Release? ==> Live(bs, op.address)
  }

  ghost predicate AllowedRun(bs: seq<Block>, ops: seq<Op>)
    decreases |ops|
  {
    ops == [] || (|bs| >= 2 && Allowed(bs, ops[0]) && AllowedRun(Step(bs, ops[0]), ops[1..]))
  }

  ghost function After(bs: seq<Block>, ops: seq<Op>): seq<Block>
    requires AllowedRun(bs, ops)
    decreases |ops|
  {
    if ops == [] then bs else After(Step(bs, ops[0]), ops[1..])
  }

  lemma StepKeepsRegion(bs: seq<Block>, lo: nat, hi: nat, op: Op)
    requires Region(bs, lo, hi) && Allowed(bs, op)
    ensures Region(Step(bs, op), lo, hi)
  {
    match op
    case Request(kilobytes, nodeAvailable) =>
      var i := FirstFit(bs, RequestBytes(kilobytes), 0);
      if i + 1 < |bs| {
        RequestIsRounded(kilobytes);
        InsertKeepsRegion(bs, lo, hi, i, RequestBytes(kilobytes));
      }
    case Release(address) =>
      FreeKeepsRegion(bs, lo, hi, address);
  }

  /** Safety over every run: the list stays a sorted partition of the region, and no byte is lost. */
  lemma {:induction false} EveryRunIsSafe(bs: seq<Block>, lo: nat, hi: nat, ops: seq<Op>)
    requires Region(bs, lo, hi) && AllowedRun(bs, ops)
    ensures Region(After(bs, ops), lo, hi)
    ensures Sizes(After(bs, ops)) + Gaps(After(bs, ops)) == hi - lo
    decreases |ops|
  {
    if ops == [] {
      NothingLost(bs, lo, hi);
    } else {
      StepKeepsRegion(bs, lo, hi, ops[0]);
      EveryRunIsSafe(Step(bs, ops[0]), lo, hi, ops[1..]);
    }
  }

  // ---- runs without empty blocks ----

  /** Only the sentinels are empty. */
  ghost predicate NoEmpty(bs: seq<Block>) {
    forall j :: 1 <= j < |bs| - 1 ==> bs[j].size > 0
  }

  /** No request is for nothing, or so large that it wraps to nothing. */
  ghost predicate AsksForMemory(op: Op) {
    op.Request? ==> RequestBytes(op.kilobytes) > 0
  }

  lemma InsertKeepsNoEmpty(bs: seq<Block>, i: nat, bytes: nat)
    requires NoEmpty(bs) && i + 1 < |bs| && bytes > 0
    ensures NoEmpty(Insert(bs, i, bytes))
  {
    var after := Insert(bs, i, bytes);
    hide Insert;
    InsertAt(bs, i, bytes, 0);
    forall k | 1 <= k < |after| - 1
      ensures after[k].size > 0
    {
      InsertAt(bs, i, bytes, k);
    }
  }

  lemma RemoveKeepsNoEmpty(bs: seq<Block>, j: nat)
    requires NoEmpty(bs) && 1 <= j < |bs| - 1
    ensures NoEmpty(Remove(bs, j))
  {
    forall k | 1 <= k < |bs| - 2
      ensures Remove(bs, j)[k].size > 0
    {
      assert Remove(bs, j)[k] == if k < j then bs[k] else bs[k + 1];
    }
  }

  lemma StepKeepsNoEmpty(bs: seq<Block>, lo: nat, hi: nat, op: Op)
    requires Region(bs, lo, hi) && Allowed(bs, op) && NoEmpty(bs) && AsksForMemory(op)
    ensures NoEmpty(Step(bs, op))
  {
    hide RequestBytes, NoEmpty, Insert, Remove;
    match op
    case Request(kilobytes, _) =>
      var i := FirstFit(bs, RequestBytes(kilobytes), 0);
      if i + 1 < |bs| {
        InsertKeepsNoEmpty(bs, i, RequestBytes(kilobytes));
      }
    case Release(address) =>
      FreeKeepsRegion(bs, lo, hi, address);
      RemoveKeepsNoEmpty(bs, Find(bs, address, 1));
  }

  /** In every state such runs reach, allocating and freeing again leaves the list as it was. */
  lemma {:induction false} EveryRunRestores(bs: seq<Block>, lo: nat, hi: nat, ops: seq<Op>, bytes: nat)
    requires Region(bs, lo, hi) && lo > 0 && AllowedRun(bs, ops) && NoEmpty(bs)
    requires forall op :: op in ops ==> AsksForMemory(op)
    ensures Region(After(bs, ops), lo, hi) && NoEmpty(After(bs, ops))
    ensures var (after, address) := Allocate(After(bs, ops), bytes, true);
            address != 0 ==> Free(after, address) == After(bs, ops)
    decreases |ops|
  {
    hide Free, Step;
    if ops == [] {
      if Allocate(bs, bytes, true).1 != 0 {
        AllocateThenFreeAt(bs, lo, hi, bytes, FirstFit(bs, bytes, 0));
      }
    } else {
      StepKeepsRegion(bs, lo, hi, ops[0]);
      StepKeepsNoEmpty(bs, lo, hi, ops[0]);
      EveryRunRestores(Step(bs, ops[0]), lo, hi, ops[1..], bytes);
    }
  }

  /**
   * One request for nothing is enough: after it, a client that asks for a page and frees what it got has
   * freed the empty block instead.
   */
  lemma EmptyRequestSpoilsRestoring()
    ensures var start := [Block(4096, 0), Block(1052672, 0)];
            var empty := Allocate(start, RequestBytes(0), true);
            var page := Allocate(empty.0, RequestBytes(4), true);
            && Region(start, 4096, 1052672) && empty.1 != 0 && page.1 == empty.1
            && Free(page.0, page.1) != empty.0
  {
    var start, bs := [Block(4096, 0), Block(1052672, 0)], [Block(4096, 0), Block(4096, 0), Block(1052672, 0)];
    hide RequestBytes, Allocate, Free, Insert, Region;
    RequestSizes();
    StartIsRegion(start);
    EmptyInserted(start, bs);
    PageInserted(bs);
    EmptyBlockIsFreed(bs, 4096, 1);
  }

  lemma RequestSizes()
    ensures RequestBytes(0) == 0 && RequestBytes(4) == 4096
  {
  }

  lemma StartIsRegion(start: seq<Block>)
    requires start == [Block(4096, 0), Block(1052672, 0)]
    ensures Region(start, 4096, 1052672)
  {
  }

  lemma EmptyInserted(start: seq<Block>, bs: seq<Block>)
    requires start == [Block(4096, 0), Block(1052672, 0)]
    requires bs == [Block(4096, 0), Block(4096, 0), Block(1052672, 0)]
    ensures Allocate(start, 0, true) == (bs, 4096)
  {
    assert FirstFit(start, 0, 0) == 0;
    assert Insert(start, 0, 0) == bs;
  }

  lemma PageInserted(bs: seq<Block>)
    requires bs == [Block(4096, 0), Block(4096, 0), Block(1052672, 0)]
    ensures Allocate(bs, 4096, true) == (Insert(bs, 1, 4096), 4096)
  {
    hide Insert;
    assert !GapFits(bs, 0, 4096) && GapFits(bs, 1, 4096);
    assert FirstFit(bs, 4096, 0) == FirstFit(bs, 4096, 1) == 1;
  }

  // ---- the list on the heap ----

  class Node {
    var address: nat
    var size: nat
    var next: Node?

    constructor (address: nat, size: nat, next: Node?)
      ensures this.address == address && this.size == size && this.next == next
    {
      this.address, this.size, this.next := address, size, next;
    }
  }

  class DmaAllocator {
    var buffer: nat      // physical address of the region; 0 before allocator_init
    var bufferSize: nat  // kilobytes
    var list: Node?
    ghost var spine: seq<Node>

    ghost predicate Linked()
      reads this, spine
    {
    && spine != [] && list == spine[0]
      && (forall i, j :: 0 <= i < j < |spine| ==> spine[i] != spine[j])
      && (forall i :: 0 <= i < |spine| - 1 ==> spine[i].next == spine[i + 1])
      && spine[|spine| - 1].next == null
    }

    ghost function Blocks(): (bs: seq<Block>)
      reads this, spine
      ensures |bs| == |spine|
    {
      seq(|spine|, i requires 0 <= i < |spine| reads this, spine => Block(spine[i].address, spine[i].size))
    }

    ghost predicate Valid()
      reads this, spine
    {
      buffer == 0 || (Linked() && Region(Blocks(), buffer, buffer + bufferSize * 1024))
    }

    constructor ()
      ensures Valid() && buffer == 0
    {
      buffer, bufferSize, list := 0, 0, null;
      spine := [];
    }

    /**
     * The list set-up of allocator_init once the probe has found `size` kilobytes at `address`. A failed
     * set-up has already recorded the region and leaves no list for it.
     */
    method Init(address: nat, size: nat, nodesAvailable: bool) returns (ok: bool)
      requires address > 0
      modifies this
      ensures ok <==> size > 0 && nodesAvailable
      ensures buffer == address && bufferSize == size
      ensures ok ==> Valid() && fresh(spine) && Blocks() == [Block(address, 0), Block(address + size * 1024, 0)]
      ensures !ok ==> list == old(list) && spine == old(spine)
    {
      buffer, bufferSize := address, size;
      if size == 0 || !nodesAvailable {
        return false;
      }
      var tail := new Node(address + size * 1024, 0, null);
      var head := new Node(address, 0, tail);
      list := head;
      spine := [head, tail];
      ok := true;
    }

    /** Makes `node` the successor of the i-th node. */
    method LinkAfter(ptr: Node, node: Node, ghost i: nat)
      requires Linked() && i + 1 < |spine| && ptr == spine[i] && node !in spine && node.next == ptr.next
      modifies this`spine, ptr`next
      ensures Linked() && spine == old(spine[..i + 1] + [node] + spine[i + 1..])
      ensures Blocks() == old(Blocks()[..i + 1] + [Block(node.address, node.size)] + Blocks()[i + 1..])
    {
      ptr.next := node;
      spine := spine[..i + 1] + [node] + spine[i + 1..];
    }

    /** Takes the successor of the i-th node off the list. */
    method UnlinkAfter(ptr: Node, ghost i: nat)
      requires Linked() && i + 1 < |spine| && ptr == spine[i]
      modifies this`spine, ptr`next
      ensures Linked() && spine == old(spine[..i + 1] + spine[i + 2..])
      ensures Blocks() == Remove(old(Blocks()), i + 1)
    {
      assert ptr.next == spine[i + 1] && (i + 2 < |spine| ==> spine[i + 1].next == spine[i + 2]);
      ptr.next := ptr.next.next;
      spine := spine[..i + 1] + spine[i + 2..];
    }

    /** The first node with room for `bytes` behind it, or the last node. */
    method FindGap(bytes: nat) returns (ptr: Node, ghost i: nat)
      requires Linked() && Region(Blocks(), buffer, buffer + bufferSize * 1024)
      ensures i == FirstFit(Blocks(), bytes, 0) && ptr == spine[i]
      ensures ptr.next == null <==> i + 1 == |spine|
      ensures Block(ptr.address, ptr.size) == Blocks()[i]
    {
      ptr, i := list, 0;
      while ptr.next != null && !(ptr.next.address - (ptr.address + ptr.size) >= bytes)
        invariant 0 <= i < |spine| && ptr == spine[i]
        invariant FirstFit(Blocks(), bytes, 0) == FirstFit(Blocks(), bytes, i)
        decreases |spine| - i
      {
        ptr, i := ptr.next, i + 1;
      }
    }

    /** The node in front of the first one after the head with this address, or the last node. */
    method FindBefore(address: nat) returns (ptr: Node, ghost i: nat)
      requires Linked()
      ensures i + 1 == Find(Blocks(), address, 1) && i < |spine| && ptr == spine[i]
      ensures ptr.next == null <==> i + 1 == |spine|
    {
      ptr, i := list, 0;
      while ptr.next != null && ptr.next.address != address
        invariant 0 <= i < |spine| && ptr == spine[i]
        invariant Find(Blocks(), address, 1) == Find(Blocks(), address, i + 1)
        decreases |spine| - i
      {
        ptr, i := ptr.next, i + 1;
      }
    }

    /** Returns the address of the new block, or 0; nodeAvailable says whether kmalloc finds a list node. */
    method AllocateDma(kilobytes: nat, nodeAvailable: bool) returns (address: nat)
      requires Valid()
      modifies this, spine
      ensures Valid() && buffer == old(buffer) && bufferSize == old(bufferSize)
      ensures buffer == 0 ==> address == 0 && spine == old(spine)
      ensures forall n :: n in spine ==> n in old(spine) || fresh(n)
      ensures buffer != 0 ==> (Blocks(), address) == Allocate(old(Blocks()), RequestBytes(kilobytes), nodeAvailable)
    {
      hide Region, RequestBytes, DmaAllocator.Linked, DmaAllocator.Blocks;
      if buffer == 0 {
        return 0;
      }
      ghost var bs := Blocks();
      var bytes := RequestBytes(kilobytes);
      var ptr, i := FindGap(bytes);
      if ptr.next == null || !nodeAvailable {
        return 0;
      }
      address := ptr.address + ptr.size;
      var node := new Node(address, bytes, ptr.next);
      RequestIsRounded(kilobytes);
      InsertKeepsRegion(bs, buffer, buffer + bufferSize * 1024, i, bytes);
      LinkAfter(ptr, node, i);
    }

    /**
     * Releases the first block with this address; found is false when there is none, where the source goes
     * on to read through a null pointer.
     */
    method FreeDma(address: nat) returns (found: bool)
      requires Valid() && buffer != 0
      modifies this, spine
      ensures buffer == old(buffer) && bufferSize == old(bufferSize)
      ensures found <==> exists j :: 1 <= j < |old(Blocks())| && old(Blocks())[j].address == address
      ensures Blocks() == Free(old(Blocks()), address)
      ensures Valid() <==> old(Live(Blocks(), address)) || address != buffer + bufferSize * 1024
      ensures forall n :: n in spine ==> n in old(spine)
    {
      hide Region, DmaAllocator.Linked, DmaAllocator.Blocks;
      ghost var bs := Blocks();
      FreeKeepsRegionIff(bs, buffer, buffer + bufferSize * 1024, address);
      var ptr, i := FindBefore(address);
      if ptr.next == null {
        return false;
      }
      UnlinkAfter(ptr, i);
      assert bs[i + 1].address == address;
      found := true;
    }
  }
}
