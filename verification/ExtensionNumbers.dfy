/** Which extension of the file an amplifier's chunks go to in multi-extension mode. */
module ExtensionNumbers {
  import opened Amplifiers

  predicate Kept(a: Amp) { a.discard <= 0 }

  /** How many of the first n amplifiers are discarded. */
  function Discarded(amps: seq<Amp>, n: nat): (k: nat)
    requires n <= |amps|
    ensures k <= n
  {
    if n == 0 then 0 else Discarded(amps, n - 1) + if Kept(amps[n - 1]) then 0 else 1
  }

  /** The header unit the writer moves to for amplifier i; unit 1 is the primary header. */
  function Unit(extension: seq<int>, amps: seq<Amp>, i: nat): int
    requires |extension| == |amps| && i < |amps|
  {
    extension[i] + 2 - Discarded(amps, i)
  }

  lemma NoneYet(amps: seq<Amp>)
    ensures Discarded(amps, 0) == 0
  {
  }

  lemma NextUnit(extension: seq<int>, amps: seq<Amp>, i: nat)
    requires |extension| == |amps| && i < |amps|
    ensures Discarded(amps, i + 1) == Discarded(amps, i) + if amps[i].discard <= 0 then 0 else 1
    ensures Unit(extension, amps, i) == extension[i] + 2 - Discarded(amps, i)
  {
  }

  /** No two kept amplifiers write to the same extension. */
  ghost predicate UnitsApart(extension: seq<int>, amps: seq<Amp>)
    requires |extension| == |amps|
  {
    forall i, j :: 0 <= i < j < |amps| && Kept(amps[i]) && Kept(amps[j]) ==>
      Unit(extension, amps, i) != Unit(extension, amps, j)
  }

  lemma {:induction false} DiscardedBetween(amps: seq<Amp>, i: nat, j: nat)
    requires i <= j <= |amps|
    ensures 0 <= Discarded(amps, j) - Discarded(amps, i) <= j - i
    decreases j - i
  {
    if i < j {
      DiscardedBetween(amps, i, j - 1);
    }
  }

  /**
   * Two amplifiers share an extension exactly when their numbers differ by the number of amplifiers discarded
   * from the first of them on.
   */
  lemma SharedIff(extension: seq<int>, amps: seq<Amp>, i: nat, j: nat)
    requires |extension| == |amps| && i < j < |amps|
    ensures Unit(extension, amps, i) == Unit(extension, amps, j)
            <==> extension[j] - extension[i] == Discarded(amps, j) - Discarded(amps, i)
  {
  }

  predicate InOrder(extension: seq<int>) {
    forall i :: 0 <= i < |extension| ==> extension[i] == i
  }

  /** With the numbers in their first order the kept amplifiers fill the extensions from unit 2 on, in order. */
  lemma {:induction false} InOrderFills(extension: seq<int>, amps: seq<Amp>, i: nat)
    requires |extension| == |amps| && InOrder(extension) && i < |amps|
    ensures Unit(extension, amps, i) == 2 + (i - Discarded(amps, i))
    ensures Kept(amps[i]) ==> 2 <= Unit(extension, amps, i) < 2 + (|amps| - Discarded(amps, |amps|))
    ensures UnitsApart(extension, amps)
  {
    DiscardedBetween(amps, 0, i);
    if Kept(amps[i]) {
      DiscardedBetween(amps, i + 1, |amps|);
    }
    forall j, k | 0 <= j < k < |amps| && Kept(amps[j]) && Kept(amps[k])
      ensures Unit(extension, amps, j) != Unit(extension, amps, k)
    {
      DiscardedBetween(amps, j + 1, k);
    }
  }

  /** Every unit from 2 on, as many as there are kept amplifiers, belongs to one of them. */
  lemma {:induction false} EveryUnitUsed(extension: seq<int>, amps: seq<Amp>, n: nat, unit: int) returns (i: nat)
    requires |extension| == |amps| && InOrder(extension) && n <= |amps|
    requires 2 <= unit < 2 + (n - Discarded(amps, n))
    ensures i < n && Kept(amps[i]) && Unit(extension, amps, i) == unit
  {
    if Kept(amps[n - 1]) && unit == 2 + (n - 1 - Discarded(amps, n - 1)) {
      i := n - 1;
    } else {
      i := EveryUnitUsed(extension, amps, n - 1, unit);
    }
  }

  /** Any order of numbers is good as long as nothing is discarded and no number is given twice. */
  lemma NothingDiscardedIff(extension: seq<int>, amps: seq<Amp>)
    requires |extension| == |amps| && forall i :: 0 <= i < |amps| ==> Kept(amps[i])
    ensures UnitsApart(extension, amps) <==> forall i, j :: 0 <= i < j < |amps| ==> extension[i] != extension[j]
  {
    forall i | 0 <= i < |amps|
      ensures Unit(extension, amps, i) == extension[i] + 2
    {
      NoneDiscarded(amps, i);
    }
  }

  lemma {:induction false} NoneDiscarded(amps: seq<Amp>, n: nat)
    requires n <= |amps| && forall i :: 0 <= i < n ==> Kept(amps[i])
    ensures Discarded(amps, n) == 0
  {
    if n > 0 {
      NoneDiscarded(amps, n - 1);
    }
  }

  /**
   * An order is good for every choice of discarded amplifiers exactly when no later number lies less than the
   * distance above an earlier one.
   */
  lemma AlwaysApartIff(extension: seq<int>)
    ensures (forall amps: seq<Amp> :: |amps| == |extension| ==> UnitsApart(extension, amps))
            <==> forall i, j :: 0 <= i < j < |extension| ==> !(0 <= extension[j] - extension[i] < j - i)
  {
    if i, j :| 0 <= i < j < |extension| && 0 <= extension[j] - extension[i] < j - i {
      var amps := DiscardsAfter(|extension|, i, extension[j] - extension[i]);
      CountAfter(|extension|, i, extension[j] - extension[i], i);
      CountAfter(|extension|, i, extension[j] - extension[i], j);
      assert Kept(amps[i]) && Kept(amps[j]);
      assert !UnitsApart(extension, amps);
    } else {
      forall amps: seq<Amp> | |amps| == |extension|
        ensures UnitsApart(extension, amps)
      {
        forall i, j | 0 <= i < j < |amps| && Kept(amps[i]) && Kept(amps[j])
          ensures Unit(extension, amps, i) != Unit(extension, amps, j)
        {
          DiscardedBetween(amps, i + 1, j);
        }
      }
    }
  }

  /** n amplifiers of which exactly k are discarded, those right after amplifier i. */
  function DiscardsAfter(n: nat, i: nat, k: nat): (amps: seq<Amp>)
    ensures |amps| == n
    ensures forall a :: 0 <= a < n ==> (Kept(amps[a]) <==> !(i < a <= i + k))
  {
    seq(n, a requires 0 <= a < n =>
      Amp(1, 1, 0, 1, 0, 0, 1, 0, 1, 1, 1, LL, 0, if i < a <= i + k then 1 else 0, 0, 0))
  }

  lemma {:induction false} CountAfter(n: nat, i: nat, k: nat, m: nat)
    requires m <= n
    ensures Discarded(DiscardsAfter(n, i, k), m) == if m <= i then 0 else if m <= i + k then m - i - 1 else k
    decreases m
  {
    hide DiscardsAfter;
    if m > 0 {
      CountAfter(n, i, k, m - 1);
    }
  }

  /** Three amplifiers in the order 0, 2, 1 with the middle one discarded: the others share an extension. */
  lemma ReorderedShare(amps: seq<Amp>)
    requires |amps| == 3 && Kept(amps[0]) && !Kept(amps[1]) && Kept(amps[2])
    ensures Unit([0, 2, 1], amps, 0) == Unit([0, 2, 1], amps, 2) == 2
  {
    assert Discarded(amps, 1) == 0 && Discarded(amps, 2) == 1;
  }
}
