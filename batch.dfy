/**
 * The form loop of the script: up to five asset entries, of which those with
 * a positive purchase value are looked up in the catalog, re-expressed in
 * UFV, depreciated and appended, in input order, to `resultados`. The Python
 * exceptions the loop body can raise abort the whole script; here they are
 * the failures of `CalcError`.
 */
module Batch {
  import opened Wrappers
  import opened UfvIndex
  import opened Catalog
  import opened Depreciation

  /** The form has five asset slots (`for i in range(1, 6)`). */
  const AssetSlots := 5

  /** What the user enters in one slot: asset name, purchase value (Bs) and acquisition day. */
  datatype AssetEntry = AssetEntry(name: string, purchase: real, acquired: int)

  /**
   * UnknownAsset: no catalog row carries the name (IndexError on `.values[0]`).
   * EmptySeries: the UFV series has no rows (the float conversion of an empty selection fails).
   * DivisionByZero: the initial index value or the useful life is 0 (ZeroDivisionError).
   */
  datatype CalcError = UnknownAsset | EmptySeries | DivisionByZero

  /**
   * The loop body for one entry whose purchase value is positive, with its
   * failures in the order the script meets them: catalog lookup, index
   * lookups, then the two divisions.
   */
  function Assess(catalog: seq<AssetType>, series: seq<UfvPoint>, entry: AssetEntry, today: int)
    : (r: Result<AssetResult, CalcError>)
    ensures UsefulLife(catalog, entry.name).None? ==> r == Failure(UnknownAsset)
    ensures UsefulLife(catalog, entry.name).Some? && series == [] ==> r == Failure(EmptySeries)
    ensures r == Failure(DivisionByZero) ==>
      && UsefulLife(catalog, entry.name).Some? && series != []
      && (UsefulLife(catalog, entry.name).value == 0 || IsNearestValue(series, entry.acquired, 0.0))
    ensures UsefulLife(catalog, entry.name).Some? && series != [] ==>
      (r == Failure(DivisionByZero) <==>
        UsefulLife(catalog, entry.name).value == 0 || UfvByDate(series, entry.acquired).value == 0.0)
    ensures r.Success? ==>
      && r.value.name == entry.name && r.value.purchase == entry.purchase
      && r.value.acquired == entry.acquired
      && UsefulLife(catalog, entry.name) == Some(r.value.usefulLife)
      && IsNearestValue(series, entry.acquired, r.value.ufvStart)
      && IsNearestValue(series, today, r.value.ufvNow)
      && ComputedOn(r.value, today)
  {
    match UsefulLife(catalog, entry.name)
    case None => Failure(UnknownAsset)
    case Some(life) =>
      match UfvByDate(series, entry.acquired)
      case None => Failure(EmptySeries)
      case Some(ufvStart) =>
        var ufvNow := UfvByDate(series, today).value;
        if ufvStart == 0.0 || life == 0 then Failure(DivisionByZero)
        else Success(Compute(entry.name, entry.purchase, entry.acquired, life, ufvStart, ufvNow, today))
  }

  /**
   * The division failures, stated without reference to which of several
   * equally near rows is read: a zero useful life fails; an acquisition date
   * whose nearest rows all hold 0 fails; and a known asset with a non-zero
   * useful life is assessed when no nearest row of its acquisition date holds 0.
   */
  lemma AssessDivisionByZero(catalog: seq<AssetType>, series: seq<UfvPoint>, entry: AssetEntry, today: int)
    requires UsefulLife(catalog, entry.name).Some? && series != []
    ensures UsefulLife(catalog, entry.name).value == 0 ==>
      Assess(catalog, series, entry, today) == Failure(DivisionByZero)
    ensures (forall k :: IsNearest(series, entry.acquired, k) ==> series[k].ufv == 0.0) ==>
      Assess(catalog, series, entry, today) == Failure(DivisionByZero)
    ensures (&& UsefulLife(catalog, entry.name).value != 0
             && forall k :: IsNearest(series, entry.acquired, k) ==> series[k].ufv != 0.0) ==>
      Assess(catalog, series, entry, today).Success?
  {
    var k := NearestRow(series, entry.acquired);
    assert UfvByDate(series, entry.acquired).value == series[k].ufv;
  }

  /**
   * With a known asset of non-zero useful life and a non-empty series whose
   * values are all non-zero, every entry of that asset is assessed, whatever
   * its acquisition date and whichever nearest row is read.
   */
  lemma AssessSucceeds(catalog: seq<AssetType>, series: seq<UfvPoint>, entry: AssetEntry, today: int)
    requires UsefulLife(catalog, entry.name).Some? && UsefulLife(catalog, entry.name).value != 0
    requires series != [] && forall k :: 0 <= k < |series| ==> series[k].ufv != 0.0
    ensures Assess(catalog, series, entry, today).Success?
  {
    UfvIsPublished(series, entry.acquired);
  }

  /** Acquired today: both lookups read the same row, so the purchase value is kept as is. */
  lemma SameDayKeepsValue(catalog: seq<AssetType>, series: seq<UfvPoint>, entry: AssetEntry, today: int)
    requires entry.acquired == today
    requires Assess(catalog, series, entry, today).Success?
    ensures Assess(catalog, series, entry, today).value.factor == 1.0
    ensures Assess(catalog, series, entry, today).value.adjusted == entry.purchase
  {
    var r := Assess(catalog, series, entry, today).value;
    assert r.ufvStart == r.ufvNow;
    SameIndexKeepsValue(r, today);
  }

  /** The entries the loop processes (`if valor_compra > 0`), in input order. */
  function Kept(entries: seq<AssetEntry>): (r: seq<AssetEntry>)
    ensures |r| <= |entries|
    ensures forall k :: 0 <= k < |r| ==> r[k].purchase > 0.0
  {
    if entries == [] then []
    else
      var prior := Kept(entries[..|entries| - 1]);
      var last := entries[|entries| - 1];
      if last.purchase > 0.0 then prior + [last] else prior
  }

  /** The kept entries are exactly the entries with a positive purchase value. */
  lemma {:induction false} KeptMembers(entries: seq<AssetEntry>)
    ensures forall k :: 0 <= k < |Kept(entries)| ==> Kept(entries)[k] in entries
    ensures forall k :: 0 <= k < |entries| && entries[k].purchase > 0.0 ==> entries[k] in Kept(entries)
    decreases |entries|
  {
    if entries != [] {
      var prefix := entries[..|entries| - 1];
      KeptMembers(prefix);
      assert forall k :: 0 <= k < |prefix| ==> prefix[k] == entries[k];
    }
  }

  /** Filtering commutes with concatenation: the kept entries keep their input order. */
  lemma {:induction false} KeptAppend(a: seq<AssetEntry>, b: seq<AssetEntry>)
    ensures Kept(a + b) == Kept(a) + Kept(b)
    decreases |b|
  {
    if b == [] {
      assert a + b == a;
    } else {
      var b' := b[..|b| - 1];
      assert (a + b)[..|a + b| - 1] == a + b';
      KeptAppend(a, b');
    }
  }

  /** The loop body for a fixed catalog, series and evaluation day, as a function of the entry. */
  function AssessOn(catalog: seq<AssetType>, series: seq<UfvPoint>, today: int)
    : AssetEntry -> Result<AssetResult, CalcError>
  {
    entry => Assess(catalog, series, entry, today)
  }

  /**
   * What the loop leaves in `resultados` when each kept entry is assessed by
   * `assess`: every kept entry assessed in order, or the first failure met,
   * which aborts the script.
   */
  function Collect(assess: AssetEntry -> Result<AssetResult, CalcError>, entries: seq<AssetEntry>)
    : (r: Result<seq<AssetResult>, CalcError>)
    ensures r.Success? ==> |r.value| == |Kept(entries)| <= |entries|
    ensures r.Success? ==> forall k :: 0 <= k < |r.value| ==> assess(Kept(entries)[k]) == Success(r.value[k])
  {
    if entries == [] then Success([])
    else
      var prior := Collect(assess, entries[..|entries| - 1]);
      var last := entries[|entries| - 1];
      if prior.Failure? || last.purchase <= 0.0 then prior
      else match assess(last)
        case Failure(e) => Failure(e)
        case Success(r) => Success(prior.value + [r])
  }

  /** One more slot of the loop: how the outcome on `entries[..i + 1]` extends that on `entries[..i]`. */
  lemma CollectStep(assess: AssetEntry -> Result<AssetResult, CalcError>, entries: seq<AssetEntry>, i: nat)
    requires i < |entries|
    ensures entries[i].purchase <= 0.0 ==> Collect(assess, entries[..i + 1]) == Collect(assess, entries[..i])
    ensures entries[i].purchase > 0.0 && Collect(assess, entries[..i]).Success? ==>
      Collect(assess, entries[..i + 1]) ==
        match assess(entries[i])
        case Failure(e) => Failure(e)
        case Success(r) => Success(Collect(assess, entries[..i]).value + [r])
  {
    assert entries[..i + 1][..i] == entries[..i];
  }

  /** A failure on a prefix of the entries is the failure of the whole batch. */
  lemma {:induction false} CollectFailurePersists(assess: AssetEntry -> Result<AssetResult, CalcError>,
                                                 entries: seq<AssetEntry>, i: nat)
    requires i <= |entries|
    requires Collect(assess, entries[..i]).Failure?
    ensures Collect(assess, entries) == Collect(assess, entries[..i])
    decreases |entries| - i
  {
    if i < |entries| {
      assert entries[..i + 1][..i] == entries[..i];
      CollectFailurePersists(assess, entries, i + 1);
    } else {
      assert entries[..i] == entries;
    }
  }

  /** The batch succeeds exactly when every entry with a positive purchase value can be assessed. */
  lemma {:induction false} CollectSucceedsIff(assess: AssetEntry -> Result<AssetResult, CalcError>,
                                             entries: seq<AssetEntry>)
    ensures Collect(assess, entries).Success? <==>
      forall k :: 0 <= k < |entries| && entries[k].purchase > 0.0 ==> assess(entries[k]).Success?
    decreases |entries|
  {
    if entries != [] {
      var prefix := entries[..|entries| - 1];
      var last := entries[|entries| - 1];
      assert Collect(assess, entries).Success? <==>
        Collect(assess, prefix).Success? && (last.purchase > 0.0 ==> assess(last).Success?);
      CollectSucceedsIff(assess, prefix);
      assert forall k :: 0 <= k < |prefix| ==> prefix[k] == entries[k];
    }
  }

  /** A failed batch reports the failure of the first entry that the loop could not assess. */
  lemma {:induction false} CollectFirstError(assess: AssetEntry -> Result<AssetResult, CalcError>,
                                            entries: seq<AssetEntry>)
    requires Collect(assess, entries).Failure?
    ensures exists k ::
      && 0 <= k < |entries| && entries[k].purchase > 0.0
      && assess(entries[k]) == Failure(Collect(assess, entries).error)
      && forall j :: 0 <= j < k && entries[j].purchase > 0.0 ==> assess(entries[j]).Success?
    decreases |entries|
  {
    var prefix := entries[..|entries| - 1];
    assert forall k :: 0 <= k < |prefix| ==> prefix[k] == entries[k];
    if Collect(assess, prefix).Failure? {
      CollectFirstError(assess, prefix);
    } else {
      CollectSucceedsIff(assess, prefix);
      var k := |entries| - 1;
      assert assess(entries[k]).Failure?;
    }
  }

  /**
   * Every result of a successful batch comes from an entry with a positive
   * purchase value and carries the useful life of the first catalog row of
   * its name.
   */
  lemma CollectedFromCatalog(catalog: seq<AssetType>, series: seq<UfvPoint>, entries: seq<AssetEntry>, today: int)
    ensures Collect(AssessOn(catalog, series, today), entries).Success? ==>
      var rs := Collect(AssessOn(catalog, series, today), entries).value;
      forall k :: 0 <= k < |rs| ==>
        && rs[k].purchase > 0.0
        && UsefulLife(catalog, rs[k].name) == Some(rs[k].usefulLife)
  {
    var outcome := Collect(AssessOn(catalog, series, today), entries);
    if outcome.Success? {
      var kept := Kept(entries);
      forall k | 0 <= k < |outcome.value|
        ensures outcome.value[k].purchase > 0.0
        ensures UsefulLife(catalog, outcome.value[k].name) == Some(outcome.value[k].usefulLife)
      {
        assert Assess(catalog, series, kept[k], today) == Success(outcome.value[k]);
      }
    }
  }

  /**
   * The loop over the form's slots, with the loop body `assess` applied to
   * each entry whose purchase value is positive; the first error ends it.
   */
  method CollectWith(assess: AssetEntry -> Result<AssetResult, CalcError>, entries: seq<AssetEntry>)
    returns (outcome: Result<seq<AssetResult>, CalcError>)
    ensures outcome == Collect(assess, entries)
  {
    var resultados: seq<AssetResult> := [];
    var i := 0;
    while i < |entries|
      invariant 0 <= i <= |entries|
      invariant Collect(assess, entries[..i]) == Success(resultados)
    {
      CollectStep(assess, entries, i);
      var entry := entries[i];
      if entry.purchase > 0.0 {
        var assessed := assess(entry);
        if assessed.Failure? {
          CollectFailurePersists(assess, entries, i + 1);
          return Failure(assessed.error);
        }
        resultados := resultados + [assessed.value];
      }
      i := i + 1;
    }
    assert entries[..i] == entries;
    outcome := Success(resultados);
  }

  /**
   * The loop over the form's five slots. On success the results are the
   * entries with a positive purchase value, in input order, each with the
   * useful life of the first catalog row of its name.
   */
  method CollectResults(catalog: seq<AssetType>, series: seq<UfvPoint>, entries: seq<AssetEntry>, today: int)
    returns (outcome: Result<seq<AssetResult>, CalcError>)
    requires |entries| == AssetSlots
    ensures outcome == Collect(AssessOn(catalog, series, today), entries)
    ensures outcome.Success? ==> |outcome.value| <= AssetSlots
    ensures outcome.Success? ==> forall k :: 0 <= k < |outcome.value| ==>
      && outcome.value[k].purchase > 0.0
      && UsefulLife(catalog, outcome.value[k].name) == Some(outcome.value[k].usefulLife)
  {
    outcome := CollectWith(AssessOn(catalog, series, today), entries);
    CollectedFromCatalog(catalog, series, entries, today);
  }
}
