/**
 * The year-by-year series the script plots for every asset (and fits a line
 * to for the prediction): for each whole year `o` from 0 to the useful life,
 * the book value `max(adjusted - annual * o, 0)` and the accumulated
 * depreciation `min(annual * o, adjusted)`.
 */
module Schedule {

  datatype ScheduleRow = ScheduleRow(year: int, book: real, accumulated: real)

  /** `np.maximum(adjusted - annual * o, 0)` at one offset, where `charged` is `annual * o`. */
  function BookAt(adjusted: real, charged: real): (v: real)
    ensures v >= 0.0 && v >= adjusted - charged
    ensures v == 0.0 || v == adjusted - charged
  {
    var remaining := adjusted - charged;
    if remaining >= 0.0 then remaining else 0.0
  }

  /** `np.minimum(annual * o, adjusted)` at one offset, where `charged` is `annual * o`. */
  function AccumulatedAt(adjusted: real, charged: real): (v: real)
    ensures v <= adjusted && v <= charged
    ensures v == adjusted || v == charged
  {
    if charged <= adjusted then charged else adjusted
  }

  /**
   * One row per offset of `np.arange(0, usefulLife + 1)`, which is empty when
   * the useful life is negative. Every row splits the adjusted value exactly
   * into book value and accumulated depreciation.
   */
  function Rows(adjusted: real, annual: real, usefulLife: int): (s: seq<ScheduleRow>)
    ensures |s| == if usefulLife >= 0 then usefulLife + 1 else 0
    ensures forall o :: 0 <= o < |s| ==> s[o].year == o && s[o].book >= 0.0
    ensures forall o :: 0 <= o < |s| ==> s[o].book + s[o].accumulated == adjusted
  {
    var n := if usefulLife >= 0 then usefulLife + 1 else 0;
    seq(n, o => Row(adjusted, annual, o))
  }

  /** `n` whole years as a real number, the factor the annual charge is multiplied by. */
  function Years(n: int): real
  {
    n as real
  }

  /** Counts of years compare and subtract like the integers they count. */
  lemma YearsOrder(i: int, j: int)
    ensures i <= j <==> Years(i) <= Years(j)
    ensures i < j <==> Years(i) < Years(j)
    ensures Years(j) - Years(i) == Years(j - i)
  {
  }

  /** The row at offset `o`, with `annual * o` charged. */
  function Row(adjusted: real, annual: real, o: int): ScheduleRow
  {
    var charged := annual * Years(o);
    ScheduleRow(o, BookAt(adjusted, charged), AccumulatedAt(adjusted, charged))
  }

  /** For a non-negative `a`, `a * x` grows with `x`. */
  lemma ScaleMonotone(a: real, x: real, y: real)
    requires a >= 0.0 && x <= y
    ensures a * x <= a * y
  {
    assert a * y - a * x == a * (y - x);
  }

  /**
   * The first row is the whole adjusted value with nothing depreciated; the
   * row at the end of the useful life has book value 0 and the whole value
   * depreciated.
   */
  lemma RowsEndpoints(adjusted: real, annual: real, usefulLife: int)
    requires usefulLife > 0 && adjusted >= 0.0
    requires annual * Years(usefulLife) == adjusted
    ensures Rows(adjusted, annual, usefulLife)[0] == ScheduleRow(0, adjusted, 0.0)
    ensures Rows(adjusted, annual, usefulLife)[usefulLife] == ScheduleRow(usefulLife, 0.0, adjusted)
  {
    var s := Rows(adjusted, annual, usefulLife);
    assert s[0].book == BookAt(adjusted, annual * 0.0);
    assert s[usefulLife].book == BookAt(adjusted, annual * Years(usefulLife));
  }

  /** With a non-negative annual charge, book values never rise and accumulated depreciation never falls. */
  lemma RowsMonotone(adjusted: real, annual: real, usefulLife: int, i: int, j: int)
    requires annual >= 0.0
    requires 0 <= i <= j <= usefulLife
    ensures Rows(adjusted, annual, usefulLife)[i].book >= Rows(adjusted, annual, usefulLife)[j].book
    ensures Rows(adjusted, annual, usefulLife)[i].accumulated <= Rows(adjusted, annual, usefulLife)[j].accumulated
  {
    var s := Rows(adjusted, annual, usefulLife);
    assert s[i] == Row(adjusted, annual, i) && s[j] == Row(adjusted, annual, j);
    RowMonotone(adjusted, annual, i, j);
  }

  /** `RowsMonotone` for two single rows. */
  lemma RowMonotone(adjusted: real, annual: real, i: int, j: int)
    requires annual >= 0.0 && i <= j
    ensures Row(adjusted, annual, i).book >= Row(adjusted, annual, j).book
    ensures Row(adjusted, annual, i).accumulated <= Row(adjusted, annual, j).accumulated
  {
    YearsOrder(i, j);
    ScaleMonotone(annual, Years(i), Years(j));
    AtMonotone(adjusted, annual * Years(i), annual * Years(j));
  }

  /** Charging more leaves a smaller book value and a larger accumulated amount. */
  lemma AtMonotone(adjusted: real, charged: real, later: real)
    requires charged <= later
    ensures BookAt(adjusted, charged) >= BookAt(adjusted, later)
    ensures AccumulatedAt(adjusted, charged) <= AccumulatedAt(adjusted, later)
  {
  }

  /**
   * When the annual charge is positive and spreads the value over the useful
   * life, the book value falls and the accumulated depreciation rises strictly
   * from one year to the next, all the way to the end of the useful life.
   */
  lemma RowsStrictlyMonotone(adjusted: real, annual: real, usefulLife: int, i: int, j: int)
    requires annual > 0.0 && annual * Years(usefulLife) == adjusted
    requires 0 <= i < j <= usefulLife
    ensures Rows(adjusted, annual, usefulLife)[i].book > Rows(adjusted, annual, usefulLife)[j].book
    ensures Rows(adjusted, annual, usefulLife)[i].accumulated < Rows(adjusted, annual, usefulLife)[j].accumulated
  {
    var s := Rows(adjusted, annual, usefulLife);
    assert s[i] == Row(adjusted, annual, i) && s[j] == Row(adjusted, annual, j);
    RowStrictlyMonotone(adjusted, annual, usefulLife, i, j);
  }

  /** `RowsStrictlyMonotone` for two single rows. */
  lemma RowStrictlyMonotone(adjusted: real, annual: real, usefulLife: int, i: int, j: int)
    requires annual > 0.0 && annual * Years(usefulLife) == adjusted
    requires 0 <= i < j <= usefulLife
    ensures Row(adjusted, annual, i).book > Row(adjusted, annual, j).book
    ensures Row(adjusted, annual, i).accumulated < Row(adjusted, annual, j).accumulated
  {
    RowWithin(adjusted, annual, usefulLife, i);
    RowWithin(adjusted, annual, usefulLife, j);
    YearsOrder(i, j);
    var charged, later := annual * Years(i), annual * Years(j);
    ScaleStrictlyMonotone(annual, Years(i), Years(j));
    assert Row(adjusted, annual, i).book == adjusted - charged && Row(adjusted, annual, i).accumulated == charged;
    assert Row(adjusted, annual, j).book == adjusted - later && Row(adjusted, annual, j).accumulated == later;
  }

  /** Within the useful life nothing is clipped: the row holds `adjusted - annual * o` and `annual * o`. */
  lemma RowWithin(adjusted: real, annual: real, usefulLife: int, o: int)
    requires annual >= 0.0 && annual * Years(usefulLife) == adjusted
    requires 0 <= o <= usefulLife
    ensures Row(adjusted, annual, o).book == adjusted - annual * Years(o)
    ensures Row(adjusted, annual, o).accumulated == annual * Years(o)
  {
    YearsOrder(o, usefulLife);
    ScaleMonotone(annual, Years(o), Years(usefulLife));
  }

  /** For a positive `a`, `a * x` grows strictly with `x`. */
  lemma ScaleStrictlyMonotone(a: real, x: real, y: real)
    requires a > 0.0 && x < y
    ensures a * x < a * y
  {
    assert a * y - a * x == a * (y - x);
  }

  /** A straight line `intercept + slope * year`. */
  datatype Line = Line(intercept: real, slope: real)

  function ValueOn(line: Line, year: real): real
  {
    line.intercept + line.slope * year
  }

  /**
   * The line through the plotted book values: the values fall by `annual` a
   * year from the adjusted value when that value is not negative, and are
   * all clipped to 0 otherwise.
   */
  function Trend(adjusted: real, annual: real): Line
  {
    if adjusted >= 0.0 then Line(adjusted, -annual) else Line(0.0, 0.0)
  }

  /**
   * Every book value of the series lies exactly on `Trend`. A least-squares
   * line fitted to points that are already collinear is that line, so the
   * script's fitted prediction at any year of the useful life is the
   * schedule's own book value for that year.
   */
  lemma RowsOnTrend(adjusted: real, annual: real, usefulLife: int)
    requires usefulLife > 0 && annual * Years(usefulLife) == adjusted
    ensures forall o :: 0 <= o <= usefulLife ==>
      Rows(adjusted, annual, usefulLife)[o].book == ValueOn(Trend(adjusted, annual), Years(o))
  {
    var s := Rows(adjusted, annual, usefulLife);
    forall o | 0 <= o <= usefulLife
      ensures s[o].book == ValueOn(Trend(adjusted, annual), Years(o))
    {
      assert s[o] == Row(adjusted, annual, o);
      RowOnTrend(adjusted, annual, usefulLife, o);
    }
  }

  /** `RowsOnTrend` for a single row. */
  lemma RowOnTrend(adjusted: real, annual: real, usefulLife: int, o: int)
    requires 0 <= o <= usefulLife && 0 < usefulLife && annual * Years(usefulLife) == adjusted
    ensures Row(adjusted, annual, o).book == ValueOn(Trend(adjusted, annual), Years(o))
  {
    YearsOrder(o, usefulLife);
    YearsOrder(0, usefulLife);
    var rest := Years(usefulLife) - Years(o);
    assert adjusted - annual * Years(o) == annual * rest by {
      assert annual * Years(usefulLife) - annual * Years(o) == annual * rest;
    }
    if adjusted >= 0.0 {
      assert annual >= 0.0;
      ScaleMonotone(annual, 0.0, rest);
    } else {
      assert annual < 0.0;
      ScaleMonotone(-annual, 0.0, rest);
    }
  }
}
