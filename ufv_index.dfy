/**
 * The UFV (Unidad de Fomento de Vivienda) series published by the central
 * bank, and the nearest-date lookup the script uses to read it
 * (`get_ufv_by_date`). Dates are day numbers.
 */
module UfvIndex {
  import opened Wrappers

  /** One row of the series: a day and the index value published for it. */
  datatype UfvPoint = UfvPoint(date: int, ufv: real)

  /** Absolute difference of two days, `(fecha_serie - fecha).abs()`. */
  function Distance(date: int, target: int): (d: nat)
    ensures d == date - target || d == target - date
  {
    if date >= target then date - target else target - date
  }

  /** Row `k` is at least as close to `target` as every row of the series. */
  ghost predicate IsNearest(series: seq<UfvPoint>, target: int, k: int)
  {
    && 0 <= k < |series|
    && forall j :: 0 <= j < |series| ==>
         Distance(series[k].date, target) <= Distance(series[j].date, target)
  }

  /** `v` is the index value of some row that is nearest to `target`. */
  ghost predicate IsNearestValue(series: seq<UfvPoint>, target: int, v: real)
  {
    exists k :: IsNearest(series, target, k) && series[k].ufv == v
  }

  /**
   * A row of least distance to `target`. The script takes the first position
   * of an unstable argsort, so which of several equally near rows it reads is
   * not fixed; this definition happens to pick the earliest, and its contract
   * promises only that the row is a nearest one.
   */
  function NearestRow(series: seq<UfvPoint>, target: int): (k: nat)
    requires series != []
    ensures IsNearest(series, target, k)
  {
    if |series| == 1 then 0
    else
      var k := NearestRow(series[..|series| - 1], target);
      var last := |series| - 1;
      if Distance(series[last].date, target) < Distance(series[k].date, target) then last else k
  }

  /**
   * `get_ufv_by_date`: the index value of a row nearest to `target`, or None
   * when the series is empty (the script then fails converting an empty
   * selection to a float).
   */
  function UfvByDate(series: seq<UfvPoint>, target: int): (r: Option<real>)
    ensures r.None? <==> series == []
    ensures r.Some? ==> IsNearestValue(series, target, r.value)
  {
    if series == [] then None
    else
      var k := NearestRow(series, target);
      Some(series[k].ufv)
  }

  /** The value found always belongs to a row of the series. */
  lemma {:induction false} UfvIsPublished(series: seq<UfvPoint>, target: int)
    requires series != []
    ensures exists k :: 0 <= k < |series| && series[k].ufv == UfvByDate(series, target).value
  {
    var k := NearestRow(series, target);
    assert series[k].ufv == UfvByDate(series, target).value;
  }

  /** When some row carries exactly the target date, the value read is that of a row of that date. */
  lemma ExactDateIsRead(series: seq<UfvPoint>, target: int, i: int)
    requires 0 <= i < |series| && series[i].date == target
    ensures exists k :: 0 <= k < |series| && series[k].date == target && series[k].ufv == UfvByDate(series, target).value
  {
    var k := NearestRow(series, target);
    assert Distance(series[k].date, target) <= Distance(series[i].date, target);
  }

  /**
   * The unstable tie-break does not matter when all nearest rows agree on
   * the value: the lookup then returns that value.
   */
  lemma TieBreakIrrelevant(series: seq<UfvPoint>, target: int, v: real)
    requires series != []
    requires forall k :: IsNearest(series, target, k) ==> series[k].ufv == v
    ensures UfvByDate(series, target) == Some(v)
  {
  }
}
