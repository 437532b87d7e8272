/** The "Waste %" column: the derived percentage and the colour of its badge. */
module Waste {
  import opened FoodEntries

  /**
   * `None` is the "N/A" cell of an entry whose remaining weight is not recorded yet. Otherwise
   * the percentage of the initial weight that was not left over; it is not clamped.
   */
  function WastePercentage(e: FoodEntry): (w: Option<real>)
    requires e.remainingWeight.Some? ==> e.initialWeight != 0.0
    ensures w.None? <==> e.remainingWeight.None?
    ensures w.Some? ==> e.remainingWeight.value == e.initialWeight * (1.0 - w.value / 100.0)
  {
    match e.remainingWeight
    case None => None
    case Some(r) => Some((e.initialWeight - r) / e.initialWeight * 100.0)
  }

  /** Nothing left over is 100% waste; everything left over is 0%. */
  lemma WasteEndpoints(e: FoodEntry)
    requires e.initialWeight != 0.0
    ensures e.remainingWeight == Some(0.0) ==> WastePercentage(e) == Some(100.0)
    ensures e.remainingWeight == Some(e.initialWeight) ==> WastePercentage(e) == Some(0.0)
  {
    assert (e.initialWeight - 0.0) / e.initialWeight == 1.0;
  }

  /** For a positive initial weight a remaining weight between 0 and the initial one gives 0..100. */
  lemma WasteWithinRange(e: FoodEntry)
    requires e.initialWeight > 0.0 && e.remainingWeight.Some?
    requires 0.0 <= e.remainingWeight.value <= e.initialWeight
    ensures 0.0 <= WastePercentage(e).value <= 100.0
  {
    var i, r := e.initialWeight, e.remainingWeight.value;
    assert (i - r) / i <= 1.0;
  }

  /** More left over than was served shows as negative waste, not as 0. */
  lemma WasteNegativeWhenOverweight(e: FoodEntry)
    requires e.initialWeight > 0.0 && e.remainingWeight.Some?
    requires e.remainingWeight.value > e.initialWeight
    ensures WastePercentage(e).value < 0.0
  {
    var i, r := e.initialWeight, e.remainingWeight.value;
    assert (i - r) / i < 0.0;
  }

  /** The more is left over, the lower the waste. */
  lemma WasteDecreasesWithRemaining(e: FoodEntry, e': FoodEntry)
    requires e.initialWeight > 0.0 && e'.initialWeight == e.initialWeight
    requires e.remainingWeight.Some? && e'.remainingWeight.Some?
    requires e.remainingWeight.value <= e'.remainingWeight.value
    ensures WastePercentage(e').value <= WastePercentage(e).value
  {
    var i, r, r' := e.initialWeight, e.remainingWeight.value, e'.remainingWeight.value;
    assert (i - r') / i <= (i - r) / i;
  }

  /** 2.0 kg served and 0.5 kg left: 75% waste. */
  lemma RiceExample()
    ensures WastePercentage(FoodEntry("1", "2024-01-10", "lunch", "Rice", 2.0, Some(0.5))) == Some(75.0)
    ensures WastePercentage(FoodEntry("1", "2024-01-10", "lunch", "Rice", 2.0, None)) == None
  {
  }

  datatype Band = Grey | Red | Yellow | Green

  /** The badge colour of a waste cell. */
  function BandOf(w: Option<real>): (b: Band)
    ensures b == Grey <==> w.None?
    ensures w.Some? && w.value <= 0.0 ==> b == Green
  {
    match w
    case None => Grey
    case Some(p) => if p > 50.0 then Red else if p > 25.0 then Yellow else Green
  }

  /** Each cell gets exactly the colour of the one range its value falls in. */
  lemma BandRanges(w: Option<real>)
    ensures BandOf(w) == Grey <==> w.None?
    ensures BandOf(w) == Red <==> w.Some? && w.value > 50.0
    ensures BandOf(w) == Yellow <==> w.Some? && 25.0 < w.value <= 50.0
    ensures BandOf(w) == Green <==> w.Some? && w.value <= 25.0
  {
  }

  /**
   * In terms of the weights, for a positive initial weight: red when less than half is left,
   * yellow when at least half but less than three quarters is left, green otherwise.
   */
  lemma BandByRemainingShare(e: FoodEntry)
    requires e.initialWeight > 0.0 && e.remainingWeight.Some?
    ensures var i, r := e.initialWeight, e.remainingWeight.value;
      && (BandOf(WastePercentage(e)) == Red <==> r < i / 2.0)
      && (BandOf(WastePercentage(e)) == Yellow <==> i / 2.0 <= r < i * 3.0 / 4.0)
      && (BandOf(WastePercentage(e)) == Green <==> i * 3.0 / 4.0 <= r)
  {
    var i, r := e.initialWeight, e.remainingWeight.value;
    var w := WastePercentage(e).value;
    var q := r / i;
    assert (i - r) / i == i / i - r / i;
    assert i / i == 1.0;
    assert w == 100.0 - q * 100.0;
    ScaleBelow(r, i, 0.5);
    ScaleBelow(r, i, 0.75);
    assert i / 2.0 == 0.5 * i && i * 3.0 / 4.0 == 0.75 * i;
  }

  lemma ScaleBelow(r: real, i: real, c: real)
    requires i > 0.0
    ensures r / i < c <==> r < c * i
  {
    var q := r / i;
    assert q * i == r;
    if q < c {
      assert q * i < c * i;
    } else {
      assert q * i >= c * i;
    }
  }
}
