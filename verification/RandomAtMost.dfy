/** Sampling uniformly from 0 to `max` with a generator of uniform draws from 0 to `randMax`. */
module RandomAtMost {
  import opened Bytes

  /** How many draws lead to each result. */
  function BinSize(max: nat, randMax: nat): nat {
    (randMax + 1) / (max + 1)
  }

  /** How many draws are left over, and rejected. */
  function Defect(max: nat, randMax: nat): nat {
    (randMax + 1) % (max + 1)
  }

  predicate Rejected(max: nat, randMax: nat, x: nat) {
    (randMax + 1) - Defect(max, randMax) <= x
  }

  /** The answer to a sequence of draws: that of the first one that is not rejected, if any. */
  function Outcome(max: nat, randMax: nat, draws: seq<nat>): Option<nat>
    requires max <= randMax
  {
    if draws == [] then None
    else if Rejected(max, randMax, draws[0]) then Outcome(max, randMax, draws[1..])
    else
      BinsFill(max, randMax);
      Some(draws[0] / BinSize(max, randMax))
  }

  /** The bins and the rejected draws make up all draws; there is something in every bin. */
  lemma BinsFill(max: nat, randMax: nat)
    requires max <= randMax
    ensures randMax + 1 == BinSize(max, randMax) * (max + 1) + Defect(max, randMax)
    ensures BinSize(max, randMax) >= 1 && Defect(max, randMax) < max + 1
  {
    var bins, size := max + 1, BinSize(max, randMax);
    assert randMax + 1 == bins * size + Defect(max, randMax);
    assert bins * size == size * bins;
    if size <= 0 {
      assert bins * size <= 0 by { Product(bins, size); }
      assert false;
    }
  }

  lemma Product(a: nat, b: int)
    requires b <= 0
    ensures a * b <= 0
  {
  }

  /** Is draw `i` the first one below the greatest multiple of the number of bins, and `r` the bin
      it lies in? */
  predicate IsAnswer(max: nat, randMax: nat, draws: seq<nat>, i: nat, r: nat) {
    var limit, size := (randMax + 1) - (randMax + 1) % (max + 1), (randMax + 1) / (max + 1);
    && i < |draws| && draws[i] < limit && (forall j | 0 <= j < i :: draws[j] >= limit)
    && r * size <= draws[i] < r * size + size
  }

  /** The answer is that of the first accepted draw alone, and there is none without one. */
  lemma {:induction false} FirstAcceptedDecides(max: nat, randMax: nat, draws: seq<nat>, i: nat)
    requires max <= randMax && i <= |draws| && forall j | 0 <= j < i :: Rejected(max, randMax, draws[j])
    requires i < |draws| ==> !Rejected(max, randMax, draws[i])
    ensures Outcome(max, randMax, draws) == if i < |draws| then Outcome(max, randMax, [draws[i]]) else None
    decreases i
  {
    hide Rejected;
    if i > 0 {
      assert draws[1..][..i - 1] == draws[1..i];
      FirstAcceptedDecides(max, randMax, draws[1..], i - 1);
    }
  }

  /** `random_at_most`: redraw until a draw is not rejected. The generator is the sequence of its
      draws; there is no answer when all of them are rejected. */
  method RandomAtMost(max: nat, randMax: nat, draws: seq<nat>) returns (r: Option<nat>)
    requires max <= randMax < 0x8000_0000_0000_0000
    ensures r == Outcome(max, randMax, draws)
    ensures r.None? <==> forall i | 0 <= i < |draws| :: draws[i] >= (randMax + 1) - (randMax + 1) % (max + 1)
    ensures r.Some? ==> exists i :: IsAnswer(max, randMax, draws, i, r.value)
  {
    var numBins := max + 1;
    var numRand := randMax + 1;
    var binSize := numRand / numBins;
    var defect := numRand % numBins;
    BinsFill(max, randMax);
    var i := 0;
    while i < |draws|
      invariant i <= |draws| && forall j | 0 <= j < i :: draws[j] >= numRand - defect
    {
      var x := draws[i];
      if !(numRand - defect <= x) {
        FirstAcceptedDecides(max, randMax, draws, i);
        OneDraw(max, randMax, x);
        BinOf(x, binSize, x / binSize);
        assert IsAnswer(max, randMax, draws, i, x / binSize);
        return Some(x / binSize);
      }
      i := i + 1;
    }
    FirstAcceptedDecides(max, randMax, draws, i);
    return None;
  }

  // ---------------------------------------------------------------------------------------
  // Exact counts

  /** The draws that lead to result `r`. */
  ghost function DrawsFor(max: nat, randMax: nat, r: nat): set<nat>
    requires max <= randMax
  {
    set x: nat | x <= randMax && Outcome(max, randMax, [x]) == Some(r)
  }

  ghost function AcceptedDraws(max: nat, randMax: nat): set<nat> {
    set x: nat | x <= randMax && !Rejected(max, randMax, x)
  }

  /** The numbers from `low` up to, but not including, `high`. */
  ghost function Interval(low: nat, high: nat): set<nat>
    decreases high
  {
    if low >= high then {} else Interval(low, high - 1) + {high - 1}
  }

  lemma {:induction false} IntervalSize(low: nat, high: nat)
    requires low <= high
    ensures |Interval(low, high)| == high - low
    ensures forall x: nat :: x in Interval(low, high) <==> low <= x < high
    decreases high
  {
    if low < high {
      IntervalSize(low, high - 1);
    }
  }

  /** A draw is in bin `r` exactly when it lies in the r-th stretch of that length. */
  lemma BinOf(x: nat, size: nat, r: nat)
    requires size >= 1
    ensures x / size == r <==> r * size <= x < r * size + size
  {
    var q := x / size;
    assert x == size * q + x % size;
    assert size * q == q * size;
    if q > r {
      Monotone(r + 1, q, size);
    } else if q < r {
      Monotone(q + 1, r, size);
    }
  }

  lemma Monotone(a: nat, b: nat, c: nat)
    requires a <= b
    ensures a * c <= b * c
  {
  }

  lemma OneDraw(max: nat, randMax: nat, x: nat)
    requires max <= randMax
    ensures BinSize(max, randMax) >= 1
    ensures Outcome(max, randMax, [x])
            == (if x < BinSize(max, randMax) * (max + 1) then Some(x / BinSize(max, randMax)) else None)
  {
    BinsFill(max, randMax);
    assert [x][1..] == [];
    assert Outcome(max, randMax, []) == None;
  }

  lemma DrawInBin(max: nat, randMax: nat, r: nat, x: nat)
    requires r <= max <= randMax
    ensures var size := BinSize(max, randMax);
            Outcome(max, randMax, [x]) == Some(r) <==> r * size <= x < r * size + size
  {
    hide BinSize, Outcome;
    var size := BinSize(max, randMax);
    OneDraw(max, randMax, x);
    BinOf(x, size, r);
    Monotone(r + 1, max + 1, size);
    assert (r + 1) * size == r * size + size;
  }

  /** The sampling is exactly uniform: each result from 0 to `max` is reached by exactly
      `BinSize` draws, whatever the maximum. */
  lemma EachResultHasOneBin(max: nat, randMax: nat, r: nat)
    requires r <= max <= randMax
    ensures |DrawsFor(max, randMax, r)| == BinSize(max, randMax)
  {
    hide BinSize, Outcome;
    var size := BinSize(max, randMax);
    var low := r * size;
    InRange(max, randMax, r);
    IntervalSize(low, low + size);
    forall x: nat
      ensures Outcome(max, randMax, [x]) == Some(r) <==> low <= x < low + size
    {
      DrawInBin(max, randMax, r, x);
    }
    assert DrawsFor(max, randMax, r) == Interval(low, low + size);
  }

  /** No other result is possible, after any number of draws. */
  lemma {:induction false} ResultIsInRange(max: nat, randMax: nat, draws: seq<nat>)
    requires max <= randMax
    ensures Outcome(max, randMax, draws).Some? ==> Outcome(max, randMax, draws).value <= max
  {
    if draws != [] {
      if Rejected(max, randMax, draws[0]) {
        ResultIsInRange(max, randMax, draws[1..]);
      } else {
        var size := BinSize(max, randMax);
        BinsFill(max, randMax);
        BinOf(draws[0], size, draws[0] / size);
        if draws[0] / size > max {
          Monotone(max + 1, draws[0] / size, size);
        }
      }
    }
  }

  /** More than half of all draws are accepted. */
  lemma MostDrawsAreAccepted(max: nat, randMax: nat)
    requires max <= randMax
    ensures |AcceptedDraws(max, randMax)| == BinSize(max, randMax) * (max + 1)
    ensures 2 * |AcceptedDraws(max, randMax)| > randMax + 1
  {
    var size := BinSize(max, randMax);
    BinsFill(max, randMax);
    IntervalSize(0, size * (max + 1));
    assert AcceptedDraws(max, randMax) == Interval(0, size * (max + 1));
    Monotone(1, size, max + 1);
  }

  // ---------------------------------------------------------------------------------------
  // Uniform over whole sequences of draws

  /** Move a draw of the stretch that begins at `low` to the same place in the one that begins at
      `high`, and the other way round. */
  function SwapStretch(low: nat, high: nat, size: nat, x: int): int {
    if low <= x < low + size then x - low + high
    else if high <= x < high + size then x - high + low
    else x
  }

  /** Swap the draws of two bins. */
  function SwapDraw(max: nat, randMax: nat, a: nat, b: nat, x: nat): int
    requires max <= randMax
  {
    var size := BinSize(max, randMax);
    SwapStretch(a * size, b * size, size, x)
  }

  lemma SwapStretchTwice(low: nat, high: nat, size: nat, x: nat)
    requires low == high || low + size <= high || high + size <= low
    ensures var y := SwapStretch(low, high, size, x);
            && SwapStretch(low, high, size, y) == x
            && (low <= x < low + size <==> high <= y < high + size)
            && (high <= x < high + size <==> low <= y < low + size)
            && (y == x || (x < low + size && y < high + size) || (x < high + size && y < low + size))
            && y >= 0
  {
  }

  lemma SwapDrawMeaning(max: nat, randMax: nat, a: nat, b: nat, x: nat)
    requires a <= max <= randMax && b <= max && x <= randMax
    ensures var y := SwapDraw(max, randMax, a, b, x);
            && 0 <= y <= randMax && SwapDraw(max, randMax, a, b, y) == x
            && (Rejected(max, randMax, y) <==> Rejected(max, randMax, x))
            && var size := BinSize(max, randMax);
               size >= 1 && y / size == (if x / size == a then b else if x / size == b then a else x / size)
  {
    hide *;
    SwapStaysInRange(max, randMax, a, b, x);
    BinsFill(max, randMax);
    SwapDrawBins(max, randMax, a, b, x);
  }

  lemma SwapDrawBins(max: nat, randMax: nat, a: nat, b: nat, x: nat)
    requires max <= randMax && BinSize(max, randMax) >= 1
    ensures var size, y := BinSize(max, randMax), SwapDraw(max, randMax, a, b, x);
            y >= 0 && y / size == (if x / size == a then b else if x / size == b then a else x / size)
  {
    hide BinSize, SwapStretch;
    SwapStretchBins(a, b, BinSize(max, randMax), x);
  }

  lemma SwapStaysInRange(max: nat, randMax: nat, a: nat, b: nat, x: nat)
    requires a <= max <= randMax && b <= max && x <= randMax
    ensures var y := SwapDraw(max, randMax, a, b, x);
            && 0 <= y <= randMax && SwapDraw(max, randMax, a, b, y) == x
            && (Rejected(max, randMax, y) <==> Rejected(max, randMax, x))
  {
    hide BinSize, Defect, SwapStretch;
    var size := BinSize(max, randMax);
    var low, high := a * size, b * size;
    InRange(max, randMax, a);
    InRange(max, randMax, b);
    Apart(a, b, size);
    SwapStretchTwice(low, high, size, x);
  }

  /** Swapping two bins exchanges the quotients of their draws. */
  lemma SwapStretchBins(a: nat, b: nat, size: nat, x: nat)
    requires size >= 1
    ensures var y := SwapStretch(a * size, b * size, size, x);
            y >= 0 && y / size == (if x / size == a then b else if x / size == b then a else x / size)
  {
    var y := SwapStretch(a * size, b * size, size, x);
    Apart(a, b, size);
    BinOf(x, size, a);
    BinOf(x, size, b);
    BinOf(y, size, a);
    BinOf(y, size, b);
  }

  lemma InRange(max: nat, randMax: nat, a: nat)
    requires a <= max <= randMax
    ensures a * BinSize(max, randMax) + BinSize(max, randMax) <= (randMax + 1) - Defect(max, randMax)
  {
    BinsFill(max, randMax);
    Monotone(a + 1, max + 1, BinSize(max, randMax));
    assert (a + 1) * BinSize(max, randMax) == a * BinSize(max, randMax) + BinSize(max, randMax);
  }

  /** Different bins do not overlap. */
  lemma Apart(a: nat, b: nat, size: nat)
    ensures (a + 1) * size == a * size + size && (b + 1) * size == b * size + size
    ensures a == b || a * size + size <= b * size || b * size + size <= a * size
  {
    if a < b {
      Monotone(a + 1, b, size);
    } else if b < a {
      Monotone(b + 1, a, size);
    }
  }

  predicate AreDraws(randMax: nat, draws: seq<nat>) {
    forall i | 0 <= i < |draws| :: draws[i] <= randMax
  }

  function SwapDraws(max: nat, randMax: nat, a: nat, b: nat, draws: seq<nat>): (swapped: seq<nat>)
    requires a <= max <= randMax && b <= max && AreDraws(randMax, draws)
    ensures |swapped| == |draws| && AreDraws(randMax, swapped)
    ensures forall i | 0 <= i < |draws| :: swapped[i] == SwapDraw(max, randMax, a, b, draws[i])
  {
    if draws == [] then []
    else
      SwapDrawMeaning(max, randMax, a, b, draws[0]);
      [SwapDraw(max, randMax, a, b, draws[0])] + SwapDraws(max, randMax, a, b, draws[1..])
  }

  /** The whole of `random_at_most`, redraws included, cannot tell two results apart: swapping
      their bins is a one-to-one map of the draw sequences of any length onto themselves that
      exchanges the two results and keeps every other. */
  lemma {:induction false} SwappingExchangesResults(max: nat, randMax: nat, a: nat, b: nat, draws: seq<nat>)
    requires a <= max <= randMax && b <= max && AreDraws(randMax, draws)
    ensures var swapped := SwapDraws(max, randMax, a, b, draws);
            && SwapDraws(max, randMax, a, b, swapped) == draws
            && (Outcome(max, randMax, draws) == Some(a) <==> Outcome(max, randMax, swapped) == Some(b))
            && (Outcome(max, randMax, draws) == None <==> Outcome(max, randMax, swapped) == None)
            && forall r: nat | r != a && r != b ::
                 Outcome(max, randMax, draws) == Some(r) <==> Outcome(max, randMax, swapped) == Some(r)
  {
    if draws != [] {
      SwapDrawMeaning(max, randMax, a, b, draws[0]);
      SwappingExchangesResults(max, randMax, a, b, draws[1..]);
      var swapped := SwapDraws(max, randMax, a, b, draws);
      assert swapped[1..] == SwapDraws(max, randMax, a, b, draws[1..]);
    }
  }
}
