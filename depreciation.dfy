/**
 * Straight-line depreciation of one fixed asset (Article 22 of Supreme
 * Decree 24051) with the purchase value re-expressed in UFV (Norma Contable
 * Nº 3): the formulas the script evaluates for every asset whose purchase
 * value is positive. Money and index values are exact reals; dates are day
 * numbers; `today` is the evaluation date.
 */
module Depreciation {
  import opened Schedule

  /** The day-count divisor of `dias // 365`. */
  const DaysPerYear := 365

  /**
   * `anios_trans`: whole years elapsed since acquisition (floor division of
   * the day difference by 365), capped above by the useful life. There is no
   * lower cap: an acquisition date after `today` gives a negative count.
   */
  function ElapsedYears(acquired: int, today: int, usefulLife: int): (years: int)
    ensures years <= usefulLife
    ensures years == usefulLife <==> DaysPerYear * usefulLife <= today - acquired
    ensures years < usefulLife ==>
      DaysPerYear * years <= today - acquired < DaysPerYear * (years + 1)
  {
    var whole := (today - acquired) / DaysPerYear;
    if whole < usefulLife then whole else usefulLife
  }

  /** The row the script appends to `resultados`, field for field. */
  datatype AssetResult = AssetResult(
    name: string,
    purchase: real,
    acquired: int,
    usefulLife: int,
    ufvStart: real,
    ufvNow: real,
    factor: real,
    adjusted: real,
    annual: real,
    elapsed: int,
    accumulated: real,
    book: real)

  /**
   * Re-expression and depreciation of one asset, given the index values read
   * for its acquisition date and for `today`. Both divisions of the script
   * (by the initial index and by the useful life) must have a non-zero
   * divisor.
   */
  function Compute(name: string, purchase: real, acquired: int, usefulLife: int,
                   ufvStart: real, ufvNow: real, today: int): (r: AssetResult)
    requires usefulLife != 0 && ufvStart != 0.0
    ensures r.name == name && r.purchase == purchase && r.acquired == acquired
    ensures r.usefulLife == usefulLife && r.ufvStart == ufvStart && r.ufvNow == ufvNow
    ensures r.elapsed == ElapsedYears(acquired, today, usefulLife)
    ensures r.factor * ufvStart == ufvNow
    ensures r.adjusted * ufvStart == purchase * ufvNow
    ensures r.annual * Years(usefulLife) == r.adjusted
    ensures r.accumulated == r.annual * Years(r.elapsed)
    ensures r.book >= 0.0 && r.book >= r.adjusted - r.accumulated
    ensures r.book == 0.0 || r.book == r.adjusted - r.accumulated
  {
    var factor := ufvNow / ufvStart;
    var adjusted := purchase * factor;
    YearsOrder(0, usefulLife);
    var annual := adjusted / Years(usefulLife);
    var elapsed := ElapsedYears(acquired, today, usefulLife);
    var accumulated := annual * Years(elapsed);
    var remaining := adjusted - accumulated;
    var book := if remaining > 0.0 then remaining else 0.0;
    AssetResult(name, purchase, acquired, usefulLife, ufvStart, ufvNow,
                factor, adjusted, annual, elapsed, accumulated, book)
  }

  /** `r` is what `Compute` gives for its own inputs on day `today`. */
  ghost predicate ComputedOn(r: AssetResult, today: int)
  {
    && r.usefulLife != 0 && r.ufvStart != 0.0
    && r == Compute(r.name, r.purchase, r.acquired, r.usefulLife, r.ufvStart, r.ufvNow, today)
  }

  /**
   * Within the useful life, book value and accumulated depreciation split
   * the adjusted value exactly, and the book value never exceeds it.
   */
  lemma BookPlusAccumulated(r: AssetResult, today: int)
    requires ComputedOn(r, today)
    requires r.adjusted >= 0.0 && r.elapsed >= 0
    ensures r.book + r.accumulated == r.adjusted
    ensures 0.0 <= r.book <= r.adjusted
  {
    assert r.usefulLife > 0;
    YearsOrder(0, r.usefulLife);
    YearsOrder(0, r.elapsed);
    YearsOrder(r.elapsed, r.usefulLife);
    assert r.annual >= 0.0;
    ScaleMonotone(r.annual, Years(r.elapsed), Years(r.usefulLife));
    ScaleMonotone(r.annual, 0.0, Years(r.elapsed));
  }

  /** Once the useful life is used up, everything is depreciated and the book value is 0. */
  lemma FullyDepreciated(r: AssetResult, today: int)
    requires ComputedOn(r, today)
    requires today - r.acquired >= DaysPerYear * r.usefulLife
    ensures r.elapsed == r.usefulLife
    ensures r.accumulated == r.adjusted && r.book == 0.0
  {
  }

  /**
   * An acquisition date after `today` is not clamped: the elapsed years are
   * negative, the accumulated depreciation is negative and the book value
   * exceeds the adjusted value.
   */
  lemma FutureAcquisitionOverstatesBook(r: AssetResult, today: int)
    requires ComputedOn(r, today)
    requires today < r.acquired && r.usefulLife > 0 && r.adjusted > 0.0
    ensures r.elapsed < 0 && r.accumulated < 0.0
    ensures r.book > r.adjusted
  {
    YearsOrder(0, r.usefulLife);
    YearsOrder(r.elapsed, 0);
    assert r.annual > 0.0;
    assert r.annual * Years(r.elapsed) < 0.0;
  }

  /** When both dates read the same index value, the factor is 1 and nothing is re-expressed. */
  lemma SameIndexKeepsValue(r: AssetResult, today: int)
    requires ComputedOn(r, today)
    requires r.ufvStart == r.ufvNow
    ensures r.factor == 1.0 && r.adjusted == r.purchase
  {
  }

  /** Positive index values re-express a non-negative purchase value into a non-negative one. */
  lemma AdjustedNotNegative(r: AssetResult, today: int)
    requires ComputedOn(r, today)
    requires r.ufvStart > 0.0 && r.ufvNow > 0.0 && r.purchase >= 0.0
    ensures r.factor > 0.0 && r.adjusted >= 0.0
  {
    assert r.factor > 0.0;
    assert r.adjusted == r.purchase * r.factor;
  }

  /**
   * The plotted series, read at the asset's elapsed years, gives back its
   * current book value and accumulated depreciation.
   */
  lemma ScheduleAtElapsed(r: AssetResult, today: int)
    requires ComputedOn(r, today)
    requires r.adjusted >= 0.0 && r.elapsed >= 0
    ensures r.elapsed < |Rows(r.adjusted, r.annual, r.usefulLife)|
    ensures Rows(r.adjusted, r.annual, r.usefulLife)[r.elapsed]
         == ScheduleRow(r.elapsed, r.book, r.accumulated)
  {
    BookPlusAccumulated(r, today);
    var s := Rows(r.adjusted, r.annual, r.usefulLife);
    assert s[r.elapsed].book == BookAt(r.adjusted, r.annual * Years(r.elapsed));
    assert s[r.elapsed].accumulated == AccumulatedAt(r.adjusted, r.annual * Years(r.elapsed));
  }

  /** Purchase 10000, useful life 5, same index at both dates, two years elapsed. */
  lemma ExampleWithoutReexpression()
    ensures var r := Compute("Vehiculos", 10000.0, 0, 5, 2.0, 2.0, 730);
      && r.elapsed == 2 && r.annual == 2000.0 && r.accumulated == 4000.0 && r.book == 6000.0
  {
  }

  /** Purchase 10000 re-expressed from index 2.0 to 2.5, useful life 5, one year elapsed. */
  lemma ExampleWithReexpression()
    ensures var r := Compute("Vehiculos", 10000.0, 0, 5, 2.0, 2.5, 365);
      && r.factor == 1.25 && r.adjusted == 12500.0
      && r.annual == 2500.0 && r.elapsed == 1 && r.book == 10000.0
  {
  }
}
