/**
 * The per-pixel sorting network of the median filter: the window is a
 * scratch array of nine values, sorted in place by rounds of
 * compare-and-swap operations. One round is a pass over the pairs
 * (0,1), (2,3), (4,5), (6,7) followed by a pass over (1,2), (3,4),
 * (5,6), (7,8); the filter then reads the centre element, index 4.
 *
 * The functions below specify the network on sequences; SortWindow is the
 * in-place loop nest and is proved to compute exactly Network. The lemmas
 * show that four rounds (what the filter runs) do NOT always put the median
 * at index 4, and that five rounds sort every nine-element window, so that
 * index 4 then holds the median.
 */
module SortingNetwork {

  // ---------------------------------------------------------------------
  // Compare-and-swap, passes, rounds
  // ---------------------------------------------------------------------

  /** One comparator: swap w[i] and w[i+1] when they are out of order. */
  function CompareSwap(w: seq<int>, i: nat): (r: seq<int>)
    requires i + 1 < |w|
    ensures |r| == |w|
    ensures r[i] <= r[i + 1]
    ensures r[i] == (if w[i] <= w[i + 1] then w[i] else w[i + 1])
    ensures r[i + 1] == (if w[i] <= w[i + 1] then w[i + 1] else w[i])
    ensures forall k :: 0 <= k < |w| && k != i && k != i + 1 ==> r[k] == w[k]
  {
    if w[i] > w[i + 1] then w[i := w[i + 1]][i + 1 := w[i]] else w
  }

  /** A comparator only exchanges two elements: the window keeps its multiset. */
  lemma CompareSwapPermutes(w: seq<int>, i: nat)
    requires i + 1 < |w|
    ensures multiset(CompareSwap(w, i)) == multiset(w)
  {
  }

  /** The rest of one pass that has reached index i: comparators at i, i+2, ... while i < |w| - 1. */
  function PassFrom(w: seq<int>, i: nat): (r: seq<int>)
    ensures |r| == |w|
    decreases |w| - i
  {
    if i + 1 < |w| then PassFrom(CompareSwap(w, i), i + 2) else w
  }

  /** One round: the pass that starts at index 0, then the pass that starts at index 1. */
  function Round(w: seq<int>): (r: seq<int>)
    ensures |r| == |w|
  {
    PassFrom(PassFrom(w, 0), 1)
  }

  /** The network of `rounds` rounds applied to the window w. */
  function Network(w: seq<int>, rounds: nat): (r: seq<int>)
    ensures |r| == |w|
  {
    if rounds == 0 then w else Round(Network(w, rounds - 1))
  }

  /** The number of rounds the filter runs. */
  const SourceRounds: nat := 4

  /** The number of rounds after which the centre element is the median of nine. */
  const CorrectedRounds: nat := 5

  // ---------------------------------------------------------------------
  // The in-place loop nest
  // ---------------------------------------------------------------------

  /**
   * Runs `rounds` rounds of the odd-even network on the scratch array, in place.
   * The new contents are Network of the old ones.
   */
  method SortWindow(window: array<int>, rounds: nat)
    modifies window
    ensures window[..] == Network(old(window[..]), rounds)
  {
    var done := 0;
    while done < rounds
      invariant done <= rounds
      invariant window[..] == Network(old(window[..]), done)
    {
      ghost var before := window[..];
      var i := 0;
      while i < window.Length - 1
        invariant PassFrom(window[..], i) == PassFrom(before, 0)
      {
        if window[i] > window[i + 1] {
          window[i], window[i + 1] := window[i + 1], window[i];
        }
        i := i + 2;
      }
      ghost var mid := window[..];
      i := 1;
      while i < window.Length - 1
        invariant PassFrom(window[..], i) == PassFrom(mid, 1)
      {
        if window[i] > window[i + 1] {
          window[i], window[i + 1] := window[i + 1], window[i];
        }
        i := i + 2;
      }
      done := done + 1;
    }
  }

  // ---------------------------------------------------------------------
  // What the network preserves
  // ---------------------------------------------------------------------

  lemma {:induction false} PassFromPermutes(w: seq<int>, i: nat)
    ensures multiset(PassFrom(w, i)) == multiset(w)
    decreases |w| - i
  {
    if i + 1 < |w| {
      CompareSwapPermutes(w, i);
      PassFromPermutes(CompareSwap(w, i), i + 2);
    }
  }

  /** Every round, and so the whole network, rearranges the window without changing its multiset. */
  lemma {:induction false} NetworkPermutes(w: seq<int>, rounds: nat)
    ensures multiset(Network(w, rounds)) == multiset(w)
  {
    if rounds > 0 {
      var v := Network(w, rounds - 1);
      NetworkPermutes(w, rounds - 1);
      PassFromPermutes(v, 0);
      PassFromPermutes(PassFrom(v, 0), 1);
    }
  }

  /** The centre element of the network's output is always one of the window's values. */
  lemma NetworkCentreInWindow(w: seq<int>, rounds: nat)
    requires |w| == 9
    ensures Network(w, rounds)[4] in w
  {
    NetworkPermutes(w, rounds);
    assert Network(w, rounds)[4] in multiset(Network(w, rounds));
  }

  lemma {:induction false} PassFromConstant(w: seq<int>, i: nat, c: int)
    requires forall k :: 0 <= k < |w| ==> w[k] == c
    ensures PassFrom(w, i) == w
    decreases |w| - i
  {
    if i + 1 < |w| {
      assert CompareSwap(w, i) == w;
      PassFromConstant(w, i + 2, c);
    }
  }

  /** A window whose values are all equal is left exactly as it is. */
  lemma {:induction false} NetworkConstant(w: seq<int>, rounds: nat, c: int)
    requires forall k :: 0 <= k < |w| ==> w[k] == c
    ensures Network(w, rounds) == w
  {
    if rounds > 0 {
      NetworkConstant(w, rounds - 1, c);
      PassFromConstant(w, 0, c);
      PassFromConstant(w, 1, c);
    }
  }

  // ---------------------------------------------------------------------
  // The network is a fixed list of comparators
  // ---------------------------------------------------------------------

  /** The left indices of the comparators of the pass that starts at i, over n elements. */
  function PassIndices(n: nat, i: nat): seq<nat>
    decreases n - i
  {
    if i + 1 < n then [i] + PassIndices(n, i + 2) else []
  }

  /** The comparators of `rounds` rounds over n elements, in the order they run. */
  function Schedule(n: nat, rounds: nat): seq<nat>
  {
    if rounds == 0 then [] else Schedule(n, rounds - 1) + PassIndices(n, 0) + PassIndices(n, 1)
  }

  predicate InRange(ps: seq<nat>, n: nat)
  {
    forall k :: 0 <= k < |ps| ==> ps[k] + 1 < n
  }

  /** Runs the comparators ps[0], ps[1], ... in turn. */
  function ApplySwaps(w: seq<int>, ps: seq<nat>): (r: seq<int>)
    requires InRange(ps, |w|)
    ensures |r| == |w|
    decreases |ps|
  {
    if ps == [] then w else ApplySwaps(CompareSwap(w, ps[0]), ps[1..])
  }

  lemma {:induction false} PassIndicesInRange(n: nat, i: nat)
    ensures InRange(PassIndices(n, i), n)
    decreases n - i
  {
    if i + 1 < n {
      PassIndicesInRange(n, i + 2);
    }
  }

  lemma {:induction false} ScheduleInRange(n: nat, rounds: nat)
    ensures InRange(Schedule(n, rounds), n)
  {
    if rounds > 0 {
      ScheduleInRange(n, rounds - 1);
      PassIndicesInRange(n, 0);
      PassIndicesInRange(n, 1);
    }
  }

  lemma {:induction false} ApplySwapsAppend(w: seq<int>, ps: seq<nat>, qs: seq<nat>)
    requires InRange(ps, |w|) && InRange(qs, |w|)
    ensures InRange(ps + qs, |w|)
    ensures ApplySwaps(w, ps + qs) == ApplySwaps(ApplySwaps(w, ps), qs)
    decreases |ps|
  {
    if ps != [] {
      assert (ps + qs)[1..] == ps[1..] + qs;
      ApplySwapsAppend(CompareSwap(w, ps[0]), ps[1..], qs);
    } else {
      assert ps + qs == qs;
    }
  }

  lemma {:induction false} PassFromIsSwaps(w: seq<int>, i: nat)
    ensures InRange(PassIndices(|w|, i), |w|)
    ensures PassFrom(w, i) == ApplySwaps(w, PassIndices(|w|, i))
    decreases |w| - i
  {
    PassIndicesInRange(|w|, i);
    if i + 1 < |w| {
      PassFromIsSwaps(CompareSwap(w, i), i + 2);
    }
  }

  /**
   * The network does not look at the data to decide what to compare: it is
   * the fixed comparator list Schedule.
   */
  lemma {:induction false} NetworkIsSchedule(w: seq<int>, rounds: nat)
    ensures InRange(Schedule(|w|, rounds), |w|)
    ensures Network(w, rounds) == ApplySwaps(w, Schedule(|w|, rounds))
  {
    ScheduleInRange(|w|, rounds);
    if rounds > 0 {
      var v := Network(w, rounds - 1);
      var s := Schedule(|w|, rounds - 1);
      var p0, p1 := PassIndices(|w|, 0), PassIndices(|w|, 1);
      NetworkIsSchedule(w, rounds - 1);
      PassFromIsSwaps(v, 0);
      PassFromIsSwaps(PassFrom(v, 0), 1);
      PassIndicesInRange(|w|, 0);
      PassIndicesInRange(|w|, 1);
      ApplySwapsAppend(w, s, p0);
      ApplySwapsAppend(w, s + p0, p1);
    }
  }

  /** On nine elements every round is the same eight comparators, so four rounds are 32 of them. */
  lemma {:induction false} ScheduleOfNine(rounds: nat)
    ensures |Schedule(9, rounds)| == 8 * rounds
    ensures rounds > 0 ==> Schedule(9, rounds) == Schedule(9, rounds - 1) + [0, 2, 4, 6, 1, 3, 5, 7]
  {
    if rounds > 0 {
      assert PassIndices(9, 0) == [0, 2, 4, 6];
      assert PassIndices(9, 1) == [1, 3, 5, 7];
      ScheduleOfNine(rounds - 1);
    }
  }

  // ---------------------------------------------------------------------
  // The 0-1 view of a nine-element window
  // ---------------------------------------------------------------------

  /** On a nine-element window a round is exactly the comparators at 0, 2, 4, 6, then at 1, 3, 5, 7. */
  lemma RoundOfNine(w: seq<int>)
    requires |w| == 9
    ensures Round(w) == CompareSwap(CompareSwap(CompareSwap(CompareSwap(
                          CompareSwap(CompareSwap(CompareSwap(CompareSwap(w, 0), 2), 4), 6), 1), 3), 5), 7)
  {
    var e := CompareSwap(CompareSwap(CompareSwap(CompareSwap(w, 0), 2), 4), 6);
    assert PassFrom(w, 0) == e by {
      var a := CompareSwap(w, 0);
      var b := CompareSwap(a, 2);
      var c := CompareSwap(b, 4);
      assert PassFrom(w, 0) == PassFrom(a, 2) == PassFrom(b, 4) == PassFrom(c, 6);
      assert PassFrom(CompareSwap(c, 6), 8) == CompareSwap(c, 6);
    }
    var a := CompareSwap(e, 1);
    var b := CompareSwap(a, 3);
    var c := CompareSwap(b, 5);
    assert PassFrom(e, 1) == PassFrom(a, 3) == PassFrom(b, 5) == PassFrom(c, 7);
    assert PassFrom(CompareSwap(c, 7), 9) == CompareSwap(c, 7);
  }

  /** Which of the nine positions hold a value of at least some threshold. */
  datatype Bits = Bits(b0: bool, b1: bool, b2: bool, b3: bool, b4: bool,
                       b5: bool, b6: bool, b7: bool, b8: bool)

  function Above(w: seq<int>, t: int): Bits
    requires |w| == 9
  {
    Bits(w[0] >= t, w[1] >= t, w[2] >= t, w[3] >= t, w[4] >= t,
         w[5] >= t, w[6] >= t, w[7] >= t, w[8] >= t)
  }

  /** One round on 0-1 values: a comparator puts "both" low and "either" high. */
  function RoundBits(x: Bits): Bits
  {
    var a0, a1 := x.b0 && x.b1, x.b0 || x.b1;
    var a2, a3 := x.b2 && x.b3, x.b2 || x.b3;
    var a4, a5 := x.b4 && x.b5, x.b4 || x.b5;
    var a6, a7 := x.b6 && x.b7, x.b6 || x.b7;
    Bits(a0, a1 && a2, a1 || a2, a3 && a4, a3 || a4, a5 && a6, a5 || a6, a7 && x.b8, a7 || x.b8)
  }

  function RoundsBits(x: Bits, rounds: nat): Bits
  {
    if rounds == 0 then x else RoundBits(RoundsBits(x, rounds - 1))
  }

  predicate SortedBits(x: Bits)
  {
    (x.b0 ==> x.b1) && (x.b1 ==> x.b2) && (x.b2 ==> x.b3) && (x.b3 ==> x.b4) &&
    (x.b4 ==> x.b5) && (x.b5 ==> x.b6) && (x.b6 ==> x.b7) && (x.b7 ==> x.b8)
  }

  function Indicator(b: bool): nat
  {
    if b then 1 else 0
  }

  function Ones(x: Bits): nat
  {
    Indicator(x.b0) + Indicator(x.b1) + Indicator(x.b2) + Indicator(x.b3) + Indicator(x.b4) +
    Indicator(x.b5) + Indicator(x.b6) + Indicator(x.b7) + Indicator(x.b8)
  }

  /** Thresholding commutes with a round (comparators commute with monotone maps). */
  lemma AboveRound(w: seq<int>, t: int)
    requires |w| == 9
    ensures Above(Round(w), t) == RoundBits(Above(w, t))
  {
    RoundOfNine(w);
  }

  lemma {:induction false} AboveNetwork(w: seq<int>, t: int, rounds: nat)
    requires |w| == 9
    ensures Above(Network(w, rounds), t) == RoundsBits(Above(w, t), rounds)
  {
    if rounds > 0 {
      AboveNetwork(w, t, rounds - 1);
      AboveRound(Network(w, rounds - 1), t);
    }
  }

  /** A round moves values between positions but never changes how many reach a threshold. */
  lemma RoundBitsKeepsOnes(x: Bits)
    ensures Ones(RoundBits(x)) == Ones(x)
  {
  }

  lemma {:induction false} RoundsBitsKeepOnes(x: Bits, rounds: nat)
    ensures Ones(RoundsBits(x, rounds)) == Ones(x)
  {
    if rounds > 0 {
      RoundsBitsKeepOnes(x, rounds - 1);
      RoundBitsKeepsOnes(RoundsBits(x, rounds - 1));
    }
  }

  // ---------------------------------------------------------------------
  // The median, as a reference definition
  // ---------------------------------------------------------------------

  /** The number of elements of w strictly below m. */
  function CountBelow(w: seq<int>, m: int): nat
  {
    if w == [] then 0 else CountBelow(w[..|w| - 1], m) + Indicator(w[|w| - 1] < m)
  }

  /** The number of elements of w strictly above m. */
  function CountAbove(w: seq<int>, m: int): nat
  {
    if w == [] then 0 else CountAbove(w[..|w| - 1], m) + Indicator(w[|w| - 1] > m)
  }

  /** m is a median of w: one of its elements, with at most half of w below it and at most half above it. */
  predicate IsMedian(w: seq<int>, m: int)
  {
    m in w && CountBelow(w, m) <= |w| / 2 && CountAbove(w, m) <= |w| / 2
  }

  predicate Sorted(w: seq<int>)
  {
    forall k :: 0 <= k < |w| - 1 ==> w[k] <= w[k + 1]
  }

  lemma CountBelowPrefix(w: seq<int>, k: nat, m: int)
    requires k < |w|
    ensures CountBelow(w[..k + 1], m) == CountBelow(w[..k], m) + Indicator(w[k] < m)
  {
    assert w[..k + 1][..k] == w[..k];
  }

  lemma CountAbovePrefix(w: seq<int>, k: nat, m: int)
    requires k < |w|
    ensures CountAbove(w[..k + 1], m) == CountAbove(w[..k], m) + Indicator(w[k] > m)
  {
    assert w[..k + 1][..k] == w[..k];
  }

  /** The count below m of a nine-element window, position by position. */
  lemma CountBelowOfNine(w: seq<int>, m: int)
    requires |w| == 9
    ensures CountBelow(w, m) ==
      Indicator(w[0] < m) + Indicator(w[1] < m) + Indicator(w[2] < m) + Indicator(w[3] < m) +
      Indicator(w[4] < m) + Indicator(w[5] < m) + Indicator(w[6] < m) + Indicator(w[7] < m) +
      Indicator(w[8] < m)
  {
    assert w[..0] == [];
    CountBelowPrefix(w, 0, m);
    CountBelowPrefix(w, 1, m);
    CountBelowPrefix(w, 2, m);
    CountBelowPrefix(w, 3, m);
    CountBelowPrefix(w, 4, m);
    CountBelowPrefix(w, 5, m);
    CountBelowPrefix(w, 6, m);
    CountBelowPrefix(w, 7, m);
    CountBelowPrefix(w, 8, m);
    assert w[..9] == w;
  }

  /** The count above m of a nine-element window, position by position. */
  lemma CountAboveOfNine(w: seq<int>, m: int)
    requires |w| == 9
    ensures CountAbove(w, m) ==
      Indicator(w[0] > m) + Indicator(w[1] > m) + Indicator(w[2] > m) + Indicator(w[3] > m) +
      Indicator(w[4] > m) + Indicator(w[5] > m) + Indicator(w[6] > m) + Indicator(w[7] > m) +
      Indicator(w[8] > m)
  {
    assert w[..0] == [];
    CountAbovePrefix(w, 0, m);
    CountAbovePrefix(w, 1, m);
    CountAbovePrefix(w, 2, m);
    CountAbovePrefix(w, 3, m);
    CountAbovePrefix(w, 4, m);
    CountAbovePrefix(w, 5, m);
    CountAbovePrefix(w, 6, m);
    CountAbovePrefix(w, 7, m);
    CountAbovePrefix(w, 8, m);
    assert w[..9] == w;
  }

  /** On nine elements the two counts are read off the 0-1 views at m and at m + 1. */
  lemma CountsOfNine(w: seq<int>, m: int)
    requires |w| == 9
    ensures CountBelow(w, m) == 9 - Ones(Above(w, m))
    ensures CountAbove(w, m) == Ones(Above(w, m + 1))
  {
    CountBelowOfNine(w, m);
    CountAboveOfNine(w, m);
  }

  // ---------------------------------------------------------------------
  // Four rounds are not enough
  // ---------------------------------------------------------------------

  /**
   * The comment beside the network calls four rounds sufficient for nine
   * elements. They are not: on this window the centre ends up holding 6,
   * while the median is 5.
   */
  lemma FourRoundsNotMedian()
    ensures Network([6, 7, 8, 9, 1, 2, 3, 4, 5], SourceRounds)[4] == 6
    ensures !IsMedian([6, 7, 8, 9, 1, 2, 3, 4, 5], 6)
    ensures IsMedian([6, 7, 8, 9, 1, 2, 3, 4, 5], 5)
  {
    FourRoundsCentreIsSix();
    MedianOfCounterexample();
  }

  /** Four rounds leave 6 at the centre of the counterexample window, traced on its 0-1 views at 6 and 7. */
  lemma FourRoundsCentreIsSix()
    ensures Network([6, 7, 8, 9, 1, 2, 3, 4, 5], SourceRounds)[4] == 6
  {
    var w: seq<int> := [6, 7, 8, 9, 1, 2, 3, 4, 5];
    var r := Network(w, SourceRounds);
    assert r[4] >= 6 by {
      var x0 := Above(w, 6);
      assert x0 == Bits(true, true, true, true, false, false, false, false, false);
      var x1 := RoundBits(x0);
      assert x1 == Bits(true, true, true, false, true, false, false, false, false);
      var x2 := RoundBits(x1);
      assert x2 == Bits(true, false, true, false, true, false, true, false, false);
      var x3 := RoundBits(x2);
      assert x3 == Bits(false, false, true, false, true, false, true, false, true);
      assert RoundBits(x3).b4;
      AboveNetwork(w, 6, SourceRounds);
      FourRoundsBits(x0);
    }
    assert r[4] < 7 by {
      var x0 := Above(w, 7);
      assert x0 == Bits(false, true, true, true, false, false, false, false, false);
      var x1 := RoundBits(x0);
      assert x1 == Bits(false, true, true, false, true, false, false, false, false);
      var x2 := RoundBits(x1);
      assert x2 == Bits(false, false, true, false, true, false, true, false, false);
      var x3 := RoundBits(x2);
      assert x3 == Bits(false, false, false, false, true, false, true, false, true);
      assert !RoundBits(x3).b4;
      AboveNetwork(w, 7, SourceRounds);
      FourRoundsBits(x0);
    }
  }

  /** The counterexample window's median is 5: four samples lie below it and four above, while five lie below 6. */
  lemma MedianOfCounterexample()
    ensures !IsMedian([6, 7, 8, 9, 1, 2, 3, 4, 5], 6)
    ensures IsMedian([6, 7, 8, 9, 1, 2, 3, 4, 5], 5)
  {
    var w: seq<int> := [6, 7, 8, 9, 1, 2, 3, 4, 5];
    assert !IsMedian(w, 6) by {
      CountsOfNine(w, 6);
      assert Ones(Above(w, 6)) == 4;
    }
    assert IsMedian(w, 5) by {
      assert w[8] == 5;
      CountsOfNine(w, 5);
      assert Ones(Above(w, 5)) == 5 && Ones(Above(w, 6)) == 4;
    }
  }

  /** The same failure on a 0-1 window: four ones before five zeros give 1 at the centre, not 0. */
  lemma FourRoundsNotMedianZeroOne()
    ensures Network([1, 1, 1, 1, 0, 0, 0, 0, 0], SourceRounds)[4] == 1
    ensures !IsMedian([1, 1, 1, 1, 0, 0, 0, 0, 0], 1)
  {
    var w: seq<int> := [1, 1, 1, 1, 0, 0, 0, 0, 0];
    var r := Network(w, SourceRounds);
    assert r[4] >= 1 by {
      var x0 := Above(w, 1);
      assert x0 == Bits(true, true, true, true, false, false, false, false, false);
      var x1 := RoundBits(x0);
      assert x1 == Bits(true, true, true, false, true, false, false, false, false);
      var x2 := RoundBits(x1);
      assert x2 == Bits(true, false, true, false, true, false, true, false, false);
      var x3 := RoundBits(x2);
      assert x3 == Bits(false, false, true, false, true, false, true, false, true);
      assert RoundBits(x3).b4;
      AboveNetwork(w, 1, SourceRounds);
      FourRoundsBits(x0);
    }
    assert r[4] < 2 by {
      var z := Bits(false, false, false, false, false, false, false, false, false);
      assert Above(w, 2) == z && RoundBits(z) == z;
      AboveNetwork(w, 2, SourceRounds);
      FourRoundsBits(z);
    }
    ZeroOneMedianIsZero();
  }

  /** Four ones and five zeros: 1 has five samples below it, so it is not the median. */
  lemma ZeroOneMedianIsZero()
    ensures !IsMedian([1, 1, 1, 1, 0, 0, 0, 0, 0], 1)
  {
    var w: seq<int> := [1, 1, 1, 1, 0, 0, 0, 0, 0];
    CountsOfNine(w, 1);
    assert Ones(Above(w, 1)) == 4;
  }

  // ---------------------------------------------------------------------
  // Five rounds sort nine elements
  // ---------------------------------------------------------------------

  lemma FourRoundsBits(x: Bits)
    ensures RoundsBits(x, SourceRounds) == RoundBits(RoundBits(RoundBits(RoundBits(x))))
  {
    assert RoundsBits(x, 1) == RoundBits(x);
    assert RoundsBits(x, 2) == RoundBits(RoundBits(x));
    assert RoundsBits(x, 3) == RoundBits(RoundBits(RoundBits(x)));
  }

  lemma FiveRoundsSortBits(x: Bits)
    ensures SortedBits(RoundsBits(x, CorrectedRounds))
  {
    var x1 := RoundBits(x);
    var x2 := RoundBits(x1);
    var x3 := RoundBits(x2);
    var x4 := RoundBits(x3);
    assert RoundsBits(x, 1) == x1;
    assert RoundsBits(x, 2) == x2;
    assert RoundsBits(x, 3) == x3;
    assert RoundsBits(x, 4) == x4;
    assert RoundsBits(x, 5) == RoundBits(x4);
  }

  /** A nine-element window is sorted when its 0-1 view is sorted at every threshold. */
  lemma SortedByThresholds(r: seq<int>)
    requires |r| == 9
    requires forall t :: SortedBits(Above(r, t))
    ensures Sorted(r)
  {
    forall k | 0 <= k < 8
      ensures r[k] <= r[k + 1]
    {
      assert SortedBits(Above(r, r[k]));
    }
  }

  /** Five rounds sort every nine-element window and keep its multiset (the 0-1 principle). */
  lemma FiveRoundsSort(w: seq<int>)
    requires |w| == 9
    ensures Sorted(Network(w, CorrectedRounds))
    ensures multiset(Network(w, CorrectedRounds)) == multiset(w)
  {
    var r := Network(w, CorrectedRounds);
    NetworkPermutes(w, CorrectedRounds);
    forall t
      ensures SortedBits(Above(r, t))
    {
      AboveNetwork(w, t, CorrectedRounds);
      FiveRoundsSortBits(Above(w, t));
    }
    SortedByThresholds(r);
  }

  /** In a sorted nine-element window, the centre has at most four elements below it and four above it. */
  lemma CentreOfSorted(r: seq<int>)
    requires |r| == 9 && Sorted(r)
    ensures CountBelow(r, r[4]) <= 4 && CountAbove(r, r[4]) <= 4
  {
    assert forall i, j :: 0 <= i <= j < 9 ==> r[i] <= r[j] by {
      forall i, j | 0 <= i <= j < 9 ensures r[i] <= r[j] {
        var k := i;
        while k < j
          invariant i <= k <= j && r[i] <= r[k]
        {
          k := k + 1;
        }
      }
    }
    CountsOfNine(r, r[4]);
  }

  /** With five rounds the centre element is the median of the window. */
  lemma FiveRoundsSelectMedian(w: seq<int>)
    requires |w| == 9
    ensures IsMedian(w, Network(w, CorrectedRounds)[4])
  {
    var r := Network(w, CorrectedRounds);
    var m := r[4];
    FiveRoundsSort(w);
    CentreOfSorted(r);
    NetworkCentreInWindow(w, CorrectedRounds);
    AboveNetwork(w, m, CorrectedRounds);
    AboveNetwork(w, m + 1, CorrectedRounds);
    RoundsBitsKeepOnes(Above(w, m), CorrectedRounds);
    RoundsBitsKeepOnes(Above(w, m + 1), CorrectedRounds);
    CountsOfNine(w, m);
    CountsOfNine(r, m);
  }
}
