/** Reordering the prescan, data and overscan columns of every amplifier: GU_rearrange_sections. */
module Sections {
  import opened Grid
  import opened Amplifiers
  import opened Subimage
  import U = Unscramble

  datatype Section = Pre | Dat | Pos

  /** The three sections of a row, in the order they are to have. */
  datatype Order = Order(first: Section, second: Section, third: Section)
  {
    /** Each section once; the three names are given by the caller and nothing checks them. */
    predicate Permutes() { first != second && second != third && first != third }
  }

  /**
   * How a row is read: prescan first for a left amplifier, overscan first for a right one. The rows of a block
   * are laid out in the same way, `left` then standing for a lower amplifier.
   */
  datatype Layout = Layout(pre: nat, dat: nat, pos: nat, left: bool)
  {
    function Width(): nat { pre + dat + pos }

    function Len(s: Section): nat {
      match s
      case Pre => pre
      case Dat => dat
      case Pos => pos
    }

    function From(s: Section): nat {
      match s
      case Pre => if left then 0 else pos + dat
      case Dat => if left then pre else pos
      case Pos => if left then pre + dat else 0
    }

    /** The order that the pixels already have. */
    function Natural(): Order {
      if left then Order(Pre, Dat, Pos) else Order(Pos, Dat, Pre)
    }

    /** Where a section starts after the reordering. */
    function Place(o: Order, s: Section): nat {
      if s == o.first then 0 else if s == o.second then Len(o.first) else Len(o.first) + Len(o.second)
    }
  }

  function Cut<T>(lay: Layout, row: seq<T>, s: Section): (c: seq<T>)
    requires |row| == lay.Width()
    ensures |c| == lay.Len(s)
  {
    row[lay.From(s)..lay.From(s) + lay.Len(s)]
  }

  function ArrangedRow<T>(lay: Layout, o: Order, row: seq<T>): (r: seq<T>)
    requires |row| == lay.Width() && o.Permutes()
    ensures |r| == |row|
  {
    Cut(lay, row, o.first) + Cut(lay, row, o.second) + Cut(lay, row, o.third)
  }

  /** Every pixel of section s moves to the same place of that section. */
  lemma SectionMoves<T>(lay: Layout, o: Order, row: seq<T>, s: Section, k: nat)
    requires |row| == lay.Width() && o.Permutes() && k < lay.Len(s)
    ensures lay.Place(o, s) + k < |row| && lay.From(s) + k < |row|
    ensures ArrangedRow(lay, o, row)[lay.Place(o, s) + k] == row[lay.From(s) + k]
  {
    hide Cut;
    CutAt(lay, row, s, k);
    ThreeParts(Cut(lay, row, o.first), Cut(lay, row, o.second), Cut(lay, row, o.third));
  }

  lemma CutAt<T>(lay: Layout, row: seq<T>, s: Section, k: nat)
    requires |row| == lay.Width() && k < lay.Len(s)
    ensures lay.From(s) + k < |row| && Cut(lay, row, s)[k] == row[lay.From(s) + k]
  {
  }

  /** No pixel of a row is lost or repeated. */
  lemma RowIsPermuted<T>(lay: Layout, o: Order, row: seq<T>)
    requires |row| == lay.Width() && o.Permutes()
    ensures multiset(ArrangedRow(lay, o, row)) == multiset(row)
  {
    NaturalKeeps(lay, row);
    SumOfCuts(lay, o, row);
    SumOfCuts(lay, lay.Natural(), row);
  }

  lemma SumOfCuts<T>(lay: Layout, o: Order, row: seq<T>)
    requires |row| == lay.Width() && o.Permutes()
    ensures multiset(ArrangedRow(lay, o, row))
         == multiset(Cut(lay, row, Pre)) + multiset(Cut(lay, row, Dat)) + multiset(Cut(lay, row, Pos))
  {
    hide Cut;
    SumOfThree(Cut(lay, row, o.first), Cut(lay, row, o.second), Cut(lay, row, o.third));
  }

  lemma SumOfThree<T>(a: seq<T>, b: seq<T>, c: seq<T>)
    ensures multiset(a + b + c) == multiset(a) + multiset(b) + multiset(c)
  {
  }

  /** A row of different pixels is left alone exactly by the order it already has. */
  lemma KeepsIffNatural(lay: Layout, o: Order, row: seq<int>)
    requires |row| == lay.Width() && o.Permutes() && lay.pre > 0 && lay.dat > 0 && lay.pos > 0
    requires forall i, j :: 0 <= i < j < |row| ==> row[i] != row[j]
    ensures ArrangedRow(lay, o, row) == row <==> o == lay.Natural()
  {
    NaturalKeeps(lay, row);
    if ArrangedRow(lay, o, row) == row {
      SectionMoves(lay, o, row, o.first, 0);
      SectionMoves(lay, o, row, o.second, 0);
    }
  }

  lemma NaturalKeeps<T>(lay: Layout, row: seq<T>)
    requires |row| == lay.Width()
    ensures ArrangedRow(lay, lay.Natural(), row) == row
  {
  }

  /** Putting a row in the order of the other side and reading it as a row of that side undoes it. */
  lemma OtherSideUndoes<T>(lay: Layout, row: seq<T>)
    requires |row| == lay.Width()
    ensures var other := lay.(left := !lay.left);
            ArrangedRow(other, lay.Natural(), ArrangedRow(lay, other.Natural(), row)) == row
  {
    var (other, n) := (lay.(left := !lay.left), lay.Natural());
    CutsOfParts(other, Cut(lay, row, n.third), Cut(lay, row, n.second), Cut(lay, row, n.first));
    NaturalKeeps(lay, row);
    hide Cut;
  }

  lemma CutsOfParts<T>(lay: Layout, a: seq<T>, b: seq<T>, c: seq<T>)
    requires |a| == lay.Len(lay.Natural().first) && |b| == lay.dat && |c| == lay.Len(lay.Natural().third)
    ensures Cut(lay, a + b + c, lay.Natural().first) == a
    ensures Cut(lay, a + b + c, lay.Natural().second) == b
    ensures Cut(lay, a + b + c, lay.Natural().third) == c
  {
    ThreeParts(a, b, c);
  }

  lemma ThreeParts<T>(a: seq<T>, b: seq<T>, c: seq<T>)
    ensures var s := a + b + c;
            && s[..|a|] == a
            && s[|a|..|a| + |b|] == b
            && s[|a| + |b|..] == c
  {
  }

  // ---- one amplifier ----

  /** Every whole row of a block reordered. */
  function Arranged<T>(lay: Layout, o: Order, block: seq<T>): (r: seq<T>)
    requires o.Permutes()
    ensures |r| == |block|
  {
    var lo := |block| - lay.Width();
    if lay.Width() == 0 || lo < 0 then block
    else Arranged(lay, o, block[..lo]) + ArrangedRow(lay, o, block[lo..])
  }

  /** Rows stay where they are: each is reordered on its own. Cell `at` starts the k-th row from the end. */
  lemma {:induction false} ArrangedAt<T>(lay: Layout, o: Order, block: seq<T>, at: nat, k: nat)
    requires o.Permutes() && lay.Width() > 0 && k > 0 && |block| == at + k * lay.Width()
    ensures at + lay.Width() <= |block|
    ensures Arranged(lay, o, block)[at..at + lay.Width()] == ArrangedRow(lay, o, block[at..at + lay.Width()])
  {
    hide ArrangedRow;
    var lo := |block| - lay.Width();
    MulSplit(k - 1, 1, lay.Width());
    MulMonotone(0, k - 1, lay.Width());
    if k == 1 {
      assert block[at..at + lay.Width()] == block[lo..];
    } else {
      ArrangedAt(lay, o, block[..lo], at, k - 1);
      assert block[..lo][at..at + lay.Width()] == block[at..at + lay.Width()];
    }
  }

  lemma {:induction false} BlockIsPermuted<T>(lay: Layout, o: Order, block: seq<T>)
    requires o.Permutes()
    ensures multiset(Arranged(lay, o, block)) == multiset(block)
  {
    hide ArrangedRow;
    var lo := |block| - lay.Width();
    if lay.Width() > 0 && lo >= 0 {
      BlockIsPermuted(lay, o, block[..lo]);
      RowIsPermuted(lay, o, block[lo..]);
      assert block == block[..lo] + block[lo..];
    }
  }

  lemma {:induction false} NaturalKeepsBlock<T>(lay: Layout, block: seq<T>)
    ensures Arranged(lay, lay.Natural(), block) == block
  {
    hide ArrangedRow;
    var lo := |block| - lay.Width();
    if lay.Width() > 0 && lo >= 0 {
      NaturalKeepsBlock(lay, block[..lo]);
      NaturalKeeps(lay, block[lo..]);
    }
  }

  /** The six column copies: section s of the row that starts at cell `from`. */
  method CopySection<T>(lay: Layout, s: Section, data: array<T>, from: nat, buf: array<T>, at: nat) returns (n: nat)
    requires data != buf && from + lay.Width() <= data.Length && at + lay.Len(s) <= buf.Length
    modifies buf
    ensures n == lay.Len(s)
    ensures buf[..] == Splice(old(buf[..]), at, Cut(lay, data[from..from + lay.Width()], s))
  {
    hide Splice;
    n := lay.Len(s);
    assert data[..][from..from + lay.Width()] == data[from..from + lay.Width()];
    SliceOfSlice(data[..], from, lay.Width(), lay.From(s), n);
    CopyCells(buf, at, data, from + lay.From(s), n);
  }

  method ArrangeAmp<T>(lay: Layout, o: Order, data: array<T>, base: nat, rows: nat, buf: array<T>)
    requires data != buf && o.Permutes() && lay.Width() > 0
    requires base + lay.Width() * rows <= data.Length && lay.Width() * rows <= buf.Length
    modifies data, buf
    ensures data[..] == Splice(old(data[..]), base, Arranged(lay, o, old(data[base..base + lay.Width() * rows])))
  {
    hide Splice, Cut, Arranged, Layout.Len;
    var w, curr, y := lay.Width(), 0, 0;
    ghost var block, was, size := data[base..base + w * rows], buf[..], w * rows;
    ArrangedNone(lay, o, block, was);
    while y < rows
      invariant 0 <= y <= rows && curr == w * y && 0 <= curr <= size
      invariant data[..] == old(data[..]) && |buf[..]| == |was|
      invariant buf[..] == Splice(was, 0, Arranged(lay, o, block[..curr]))
    {
      RowFits(w, y, rows);
      ghost var row := block[curr..curr + w];
      SliceOfSlice(data[..], base, size, curr, w);
      OneMoreRow(lay, o, block, curr);
      Widths(lay, o);
      ghost var done := Arranged(lay, o, block[..curr]);
      var n := CopySection(lay, o.first, data, base + curr, buf, curr);
      var n' := CopySection(lay, o.second, data, base + curr, buf, curr + n);
      var n'' := CopySection(lay, o.third, data, base + curr, buf, curr + n + n');
      SpliceThree(was, done, Cut(lay, row, o.first), Cut(lay, row, o.second), Cut(lay, row, o.third));
      curr := curr + n + n' + n'';
      y := y + 1;
    }
    assert block[..curr] == block;
    SpliceHere(was, 0, Arranged(lay, o, block));
    CopyCells(data, base, buf, 0, w * rows);
  }

  lemma RowFits(w: nat, y: nat, rows: nat)
    requires y < rows
    ensures 0 <= w * y && w * y + w == w * (y + 1) <= w * rows
  {
    MulMonotone(0, y, w);
    MulMonotone(y + 1, rows, w);
    MulSplit(y, 1, w);
    assert w * y == y * w && w * (y + 1) == (y + 1) * w && w * rows == rows * w;
  }

  lemma Widths(lay: Layout, o: Order)
    requires o.Permutes()
    ensures lay.Len(o.first) + lay.Len(o.second) + lay.Len(o.third) == lay.Width()
  {
  }

  lemma ArrangedNone<T>(lay: Layout, o: Order, block: seq<T>, was: seq<T>)
    requires o.Permutes()
    ensures lay.Width() * 0 == 0 && Splice(was, 0, Arranged(lay, o, block[..0])) == was
  {
  }

  lemma OneMoreRow<T>(lay: Layout, o: Order, block: seq<T>, lo: nat)
    requires o.Permutes() && lay.Width() > 0 && lo + lay.Width() <= |block|
    ensures var row := block[lo..lo + lay.Width()];
            Arranged(lay, o, block[..lo + lay.Width()]) ==
            Arranged(lay, o, block[..lo]) + Cut(lay, row, o.first) + Cut(lay, row, o.second) + Cut(lay, row, o.third)
  {
    hide Cut, Layout.Width;
    var upTo := block[..lo + lay.Width()];
    assert upTo[..lo] == block[..lo] && upTo[lo..] == block[lo..lo + lay.Width()];
  }

  lemma SpliceThree<T>(s: seq<T>, x: seq<T>, a: seq<T>, b: seq<T>, c: seq<T>)
    requires |x| + |a| + |b| + |c| <= |s|
    ensures Splice(Splice(Splice(Splice(s, 0, x), |x|, a), |x| + |a|, b), |x| + |a| + |b|, c)
        == Splice(s, 0, x + a + b + c)
  {
  }

  // ---- all amplifiers ----

  /** Whether and how the column and row sections of an amplifier are reordered. */
  datatype Setting = Setting(left: bool, leftOrder: Order, right: bool, rightOrder: Order,
                             lower: bool, lowerOrder: Order, upper: bool, upperOrder: Order)
  {
    /** The left routines serve left amplifiers; every other case falls through to the right ones. */
    predicate UsesLeft(a: Amp) { Left(a.kind) && left }

    predicate Active(a: Amp) { UsesLeft(a) || right }

    function LayoutOf(a: Amp): Layout { Layout(a.precols, a.datacols, a.postcols, UsesLeft(a)) }

    function OrderOf(a: Amp): Order { if UsesLeft(a) then leftOrder else rightOrder }

    /** The same for the rows of lower amplifiers and of all others. */
    predicate UsesLower(a: Amp) { Lower(a.kind) && lower }

    predicate RowsActive(a: Amp) { UsesLower(a) || upper }

    /** A row section is a run of whole rows, so the rows are laid out as one long row. */
    function RowLayoutOf(a: Amp): Layout {
      Layout(Times(a.prerows, a.Ncols()), Times(a.datarows, a.Ncols()), Times(a.postrows, a.Ncols()), UsesLower(a))
    }

    function RowOrderOf(a: Amp): Order { if UsesLower(a) then lowerOrder else upperOrder }

    ghost predicate Valid() {
      && (left ==> leftOrder.Permutes()) && (right ==> rightOrder.Permutes())
      && (lower ==> lowerOrder.Permutes()) && (upper ==> upperOrder.Permutes())
    }
  }

  function Times(a: nat, b: nat): nat {
    MulMonotone(0, a, b);
    a * b
  }

  function ArrangedCols<T>(how: Setting, a: Amp, block: seq<T>): (r: seq<T>)
    requires how.Valid()
    ensures |r| == |block|
  {
    if how.Active(a) then Arranged(how.LayoutOf(a), how.OrderOf(a), block) else block
  }

  function ArrangedRows<T>(how: Setting, a: Amp, block: seq<T>): (r: seq<T>)
    requires how.Valid()
    ensures |r| == |block|
  {
    if how.RowsActive(a) then Arranged(how.RowLayoutOf(a), how.RowOrderOf(a), block) else block
  }

  /** First the columns of every row, then the rows. */
  function ArrangedAmp<T>(how: Setting, a: Amp, block: seq<T>): (r: seq<T>)
    requires how.Valid()
    ensures |r| == |block|
  {
    ArrangedRows(how, a, ArrangedCols(how, a, block))
  }

  /** All blocks have the size of the first amplifier's, m cells; where rows are reordered they are all there. */
  ghost predicate EqualSized(how: Setting, amps: seq<Amp>, rows: nat, m: nat) {
    forall a :: 0 <= a < |amps| ==> Sized(how, amps[a], rows, m)
  }

  ghost predicate Sized(how: Setting, a: Amp, rows: nat, m: nat) {
    && a.Ncols() > 0 && a.Ncols() * rows == m
    && (how.RowsActive(a) ==> a.RowsAddUp() && rows == a.nrows > 0)
  }

  /** The image buffer after the first n amplifiers have been reordered. */
  function SectionsAfter<T>(how: Setting, amps: seq<Amp>, data: seq<T>, m: nat, n: nat): (r: seq<T>)
    requires how.Valid() && n <= |amps| && |amps| * m <= |data|
    ensures |r| == |data|
  {
    if n == 0 then data
    else
      var before := SectionsAfter(how, amps, data, m, n - 1);
      AmpInside(|amps|, m, n - 1);
      Splice(before, U.Start(n - 1, m), ArrangedAmp(how, amps[n - 1], before[U.Start(n - 1, m)..U.Start(n - 1, m) + m]))
  }

  /** GU_rearrange_sections; rows are reordered only in whole frames. */
  method RearrangeSections<T>(how: Setting, amps: seq<Amp>, data: array<T>, rows: nat, m: nat, ampbuf: array<T>)
    requires data != ampbuf && how.Valid() && EqualSized(how, amps, rows, m)
    requires |amps| * m <= data.Length && m <= ampbuf.Length
    modifies data, ampbuf
    ensures data[..] == SectionsAfter(how, amps, old(data[..]), m, |amps|)
  {
    hide Splice, ArrangedAmp, Sized;
    var i := 0;
    while i < |amps|
      invariant 0 <= i <= |amps|
      invariant data[..] == SectionsAfter(how, amps, old(data[..]), m, i)
    {
      U.BlockInside(|amps|, m, i);
      RearrangeAmp(how, amps[i], data, i * m, rows, m, ampbuf);
      i := i + 1;
    }
  }

  method RearrangeAmp<T>(how: Setting, a: Amp, data: array<T>, base: nat, rows: nat, m: nat, ampbuf: array<T>)
    requires data != ampbuf && how.Valid() && Sized(how, a, rows, m)
    requires base + m <= data.Length && m <= ampbuf.Length
    modifies data, ampbuf
    ensures data[..] == Splice(old(data[..]), base, ArrangedAmp(how, a, old(data[..])[base..base + m]))
  {
    hide Splice, ArrangedCols, ArrangedRows, Sized;
    ghost var before := data[..];
    ghost var block := before[base..base + m];
    ghost var first := ArrangedCols(how, a, block);
    RearrangeCols(how, a, data, base, rows, m, ampbuf);
    SpliceHere(before, base, first);
    RearrangeRows(how, a, data, base, rows, m, ampbuf);
    SpliceOver(before, base, first, ArrangedRows(how, a, first));
    assert ArrangedRows(how, a, first) + first[m..] == ArrangedRows(how, a, first);
  }

  method RearrangeCols<T>(how: Setting, a: Amp, data: array<T>, base: nat, rows: nat, m: nat, ampbuf: array<T>)
    requires data != ampbuf && how.Valid() && Sized(how, a, rows, m)
    requires base + m <= data.Length && m <= ampbuf.Length
    modifies data, ampbuf
    ensures data[..] == Splice(old(data[..]), base, ArrangedCols(how, a, old(data[..])[base..base + m]))
  {
    hide Splice, Arranged, Left;
    ghost var before := data[..];
    assert before[base..base + m] == data[base..base + m];
    if Left(a.kind) && how.left {
      ArrangeAmp(how.LayoutOf(a), how.leftOrder, data, base, rows, ampbuf);
    } else if how.right {
      ArrangeAmp(how.LayoutOf(a), how.rightOrder, data, base, rows, ampbuf);
    } else {
      SpliceSame(before, base, m);
    }
  }

  method RearrangeRows<T>(how: Setting, a: Amp, data: array<T>, base: nat, rows: nat, m: nat, ampbuf: array<T>)
    requires data != ampbuf && how.Valid() && Sized(how, a, rows, m)
    requires base + m <= data.Length && m <= ampbuf.Length
    modifies data, ampbuf
    ensures data[..] == Splice(old(data[..]), base, ArrangedRows(how, a, old(data[..])[base..base + m]))
  {
    hide Splice, Arranged, Lower, Times;
    ghost var before := data[..];
    assert before[base..base + m] == data[base..base + m];
    if how.RowsActive(a) {
      RowSections(how, a, rows, m);
    }
    if Lower(a.kind) && how.lower {
      ArrangeAmp(how.RowLayoutOf(a), how.lowerOrder, data, base, 1, ampbuf);
    } else if how.upper {
      ArrangeAmp(how.RowLayoutOf(a), how.upperOrder, data, base, 1, ampbuf);
    } else {
      SpliceSame(before, base, m);
    }
  }

  lemma RowSections(how: Setting, a: Amp, rows: nat, m: nat)
    requires Sized(how, a, rows, m) && how.RowsActive(a)
    ensures how.RowLayoutOf(a).Width() == m > 0
    ensures how.RowLayoutOf(a).Width() * 1 == m
  {
    MulSplit(a.prerows, a.datarows, a.Ncols());
    MulSplit(a.prerows + a.datarows, a.postrows, a.Ncols());
    assert a.nrows * a.Ncols() == a.Ncols() * rows;
    MulMonotone(1, a.nrows, a.Ncols());
  }

  /** Where rows are reordered, each row section of a whole frame moves as one run. */
  lemma RowsOfFrame<T>(how: Setting, a: Amp, rows: nat, m: nat, block: seq<T>)
    requires how.Valid() && Sized(how, a, rows, m) && how.RowsActive(a) && |block| == m
    ensures |block| == how.RowLayoutOf(a).Width()
    ensures ArrangedRows(how, a, block) == ArrangedRow(how.RowLayoutOf(a), how.RowOrderOf(a), block)
  {
    hide ArrangedRow, Times, Lower;
    RowSections(how, a, rows, m);
    assert block[..0] == [] && block[0..] == block;
  }

  /** Each block is reordered on its own, whatever happens to the others. */
  lemma {:induction false} EveryAmpArranged<T>(how: Setting, amps: seq<Amp>, data: seq<T>, m: nat, n: nat, a: nat)
    requires how.Valid() && n <= |amps| && a < |amps| && |amps| * m <= |data|
    ensures 0 <= U.Start(a, m) && U.Start(a, m) + m <= |data|
    ensures var (before, after) := (data[U.Start(a, m)..U.Start(a, m) + m],
                                    SectionsAfter(how, amps, data, m, n)[U.Start(a, m)..U.Start(a, m) + m]);
            after == (if a < n then ArrangedAmp(how, amps[a], before) else before)
  {
    hide Splice, ArrangedAmp, U.Start, Setting.Valid;
    AmpInside(|amps|, m, a);
    if n > 0 {
      EveryAmpArranged(how, amps, data, m, n - 1, a);
      AmpInside(|amps|, m, n - 1);
      var before := SectionsAfter(how, amps, data, m, n - 1);
      var lo := U.Start(n - 1, m);
      var arranged := ArrangedAmp(how, amps[n - 1], before[lo..lo + m]);
      if a == n - 1 {
        SpliceHere(before, lo, arranged);
      } else {
        AmpsApart(m, a, n - 1);
        SpliceElsewhere(before, lo, arranged, U.Start(a, m), m);
      }
    }
  }

  lemma AmpInside(n: nat, m: nat, a: nat)
    requires a < n
    ensures U.Start(a, m) + m <= n * m
  {
    U.BlockInside(n, m, a);
  }

  lemma AmpsApart(m: nat, a: nat, b: nat)
    requires a != b
    ensures U.Start(a, m) + m <= U.Start(b, m) || U.Start(b, m) + m <= U.Start(a, m)
  {
    U.BlocksApart(m, a, b);
  }

  /** Each amplifier keeps its own pixels. */
  lemma EveryAmpIsPermuted<T>(how: Setting, amps: seq<Amp>, data: seq<T>, m: nat, a: nat)
    requires how.Valid() && a < |amps| && |amps| * m <= |data|
    ensures U.Start(a, m) + m <= |data|
    ensures multiset(SectionsAfter(how, amps, data, m, |amps|)[U.Start(a, m)..U.Start(a, m) + m])
         == multiset(data[U.Start(a, m)..U.Start(a, m) + m])
  {
    hide Arranged, U.Start, SectionsAfter, Left, Lower, Times;
    EveryAmpArranged(how, amps, data, m, |amps|, a);
    var block := data[U.Start(a, m)..U.Start(a, m) + m];
    if how.Active(amps[a]) {
      BlockIsPermuted(how.LayoutOf(amps[a]), how.OrderOf(amps[a]), block);
    }
    if how.RowsActive(amps[a]) {
      BlockIsPermuted(how.RowLayoutOf(amps[a]), how.RowOrderOf(amps[a]), ArrangedCols(how, amps[a], block));
    }
  }

  /** All enabled sides keep their read-out order. */
  predicate InReadoutOrder(how: Setting) {
    && (how.left ==> how.leftOrder == Order(Pre, Dat, Pos)) && (how.right ==> how.rightOrder == Order(Pos, Dat, Pre))
    && (how.lower ==> how.lowerOrder == Order(Pre, Dat, Pos)) && (how.upper ==> how.upperOrder == Order(Pos, Dat, Pre))
  }

  /** With every side in its read-out order the buffer is left as it was. */
  lemma {:induction false} ReadoutOrderKeeps<T>(how: Setting, amps: seq<Amp>, data: seq<T>, m: nat, n: nat)
    requires how.Valid() && n <= |amps| && |amps| * m <= |data| && InReadoutOrder(how)
    ensures SectionsAfter(how, amps, data, m, n) == data
  {
    hide Splice, ArrangedAmp, U.Start, InReadoutOrder;
    if n > 0 {
      ReadoutOrderKeeps(how, amps, data, m, n - 1);
      AmpInside(|amps|, m, n - 1);
      var lo := U.Start(n - 1, m);
      ReadoutOrderKeepsAmp(how, amps[n - 1], data[lo..lo + m]);
      SpliceSame(data, lo, m);
    }
  }

  lemma ReadoutOrderKeepsAmp<T>(how: Setting, a: Amp, block: seq<T>)
    requires how.Valid() && InReadoutOrder(how)
    ensures ArrangedAmp(how, a, block) == block
  {
    hide Arranged, Left, Lower, Times;
    if how.Active(a) {
      NaturalKeepsBlock(how.LayoutOf(a), block);
    }
    if how.RowsActive(a) {
      NaturalKeepsBlock(how.RowLayoutOf(a), block);
    }
  }

  /**
   * Only the right routines enabled: they also serve the left amplifiers and take the first columns for
   * overscan, so a left row is moved even when the order asked for is the one its pixels already have.
   */
  lemma RightAloneMovesLeftRows(a: Amp, how: Setting, row: seq<int>)
    requires Left(a.kind) && a.precols > 0 && a.datacols > 0 && a.postcols > 0
    requires |row| == a.Ncols() && forall i, j :: 0 <= i < j < |row| ==> row[i] != row[j]
    requires how.Valid() && !how.left && how.right
    ensures ArrangedRow(how.LayoutOf(a), how.OrderOf(a), row) == row <==> how.rightOrder == Order(Pos, Dat, Pre)
  {
    KeepsIffNatural(Layout(a.precols, a.datacols, a.postcols, false), how.rightOrder, row);
  }

  // ---- which side serves an amplifier ----

  /**
   * Columns: a left amplifier whose routines are enabled is read prescan first and put in the left order; every
   * other amplifier is served by the right routines when those are enabled, read overscan first; and otherwise
   * nothing moves.
   */
  lemma ColumnMoves<T>(how: Setting, a: Amp, block: seq<T>, rows: nat, y: nat, s: Section, k: nat)
    requires how.Valid() && a.Ncols() > 0 && |block| == a.Ncols() * rows && y < rows
    requires k < (match s case Pre => a.precols case Dat => a.datacols case Pos => a.postcols)
    ensures var left := a.kind & 0xA != 0 && how.left;
            var lay := Layout(a.precols, a.datacols, a.postcols, left);
            var o := if left then how.leftOrder else how.rightOrder;
            var at := y * a.Ncols();
            var moved := ArrangedCols(how, a, block);
            if left || how.right then
              && 0 <= at + lay.Place(o, s) + k < |block| && 0 <= at + lay.From(s) + k < |block|
              && moved[at + lay.Place(o, s) + k] == block[at + lay.From(s) + k]
            else moved == block
  {
    hide Arranged, ArrangedRow, Layout.Place, Layout.From, Order.Permutes;
    var left := a.kind & 0xA != 0 && how.left;
    if left || how.right {
      var lay := Layout(a.precols, a.datacols, a.postcols, left);
      assert lay.Width() == a.Ncols();
      RowMoves(lay, if left then how.leftOrder else how.rightOrder, block, rows, y, s, k);
    }
  }

  lemma RowMoves<T>(lay: Layout, o: Order, block: seq<T>, rows: nat, y: nat, s: Section, k: nat)
    requires o.Permutes() && lay.Width() > 0 && |block| == lay.Width() * rows && y < rows && k < lay.Len(s)
    ensures var at := y * lay.Width();
            && 0 <= at + lay.Place(o, s) + k < |block| && 0 <= at + lay.From(s) + k < |block|
            && Arranged(lay, o, block)[at + lay.Place(o, s) + k] == block[at + lay.From(s) + k]
  {
    var w := lay.Width();
    hide Arranged, ArrangedRow, Layout.Place, Layout.From, Order.Permutes, Layout.Width;
    MulMonotone(0, y, w);
    MulSplit(y, rows - y, w);
    MulMonotone(1, rows - y, w);
    assert (y + (rows - y)) * w == w * rows;
    ArrangedAt(lay, o, block, y * w, rows - y);
    SectionMoves(lay, o, block[y * w..y * w + w], s, k);
    var moved := Arranged(lay, o, block);
    assert moved[y * w..y * w + w][lay.Place(o, s) + k] == moved[y * w + lay.Place(o, s) + k];
  }

  /** Rows, in whole frames: the same with lower and upper amplifiers and runs of rows. */
  lemma RowsMove<T>(how: Setting, a: Amp, block: seq<T>, s: Section, k: nat)
    requires how.Valid() && a.Ncols() > 0 && a.RowsAddUp() && a.nrows > 0 && |block| == a.Ncols() * a.nrows
    requires k < Times(match s case Pre => a.prerows case Dat => a.datarows case Pos => a.postrows, a.Ncols())
    ensures var lower, n := a.kind & 0xC != 0 && how.lower, a.Ncols();
            var lay := Layout(Times(a.prerows, n), Times(a.datarows, n), Times(a.postrows, n), lower);
            var o := if lower then how.lowerOrder else how.upperOrder;
            var moved := ArrangedRows(how, a, block);
            if lower || how.upper then
              && lay.Place(o, s) + k < |block| && lay.From(s) + k < |block|
              && moved[lay.Place(o, s) + k] == block[lay.From(s) + k]
            else moved == block
  {
    hide Arranged, ArrangedRow, Times;
    if how.RowsActive(a) {
      RowsOfFrame(how, a, a.nrows, |block|, block);
      SectionMoves(how.RowLayoutOf(a), how.RowOrderOf(a), block, s, k);
    }
  }
}
