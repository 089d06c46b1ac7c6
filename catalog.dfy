/**
 * The asset catalog of Supreme Decree 24051 (`dataset_depreciacion24051.csv`):
 * asset names with their useful life in years, and the lookup
 * `activos_df.loc[activos_df['nombre_activo'] == nombre, 'vida_util'].values[0]`.
 */
module Catalog {
  import opened Wrappers

  datatype AssetType = AssetType(name: string, usefulLife: int)

  /** Position of the first row at or after `from` whose name is `name`. */
  function FirstMatchFrom(catalog: seq<AssetType>, name: string, from: nat): (r: Option<nat>)
    requires from <= |catalog|
    ensures r.None? <==> forall j :: from <= j < |catalog| ==> catalog[j].name != name
    ensures r.Some? ==>
      && from <= r.value < |catalog|
      && catalog[r.value].name == name
      && forall j :: from <= j < r.value ==> catalog[j].name != name
    decreases |catalog| - from
  {
    if from == |catalog| then None
    else if catalog[from].name == name then Some(from)
    else FirstMatchFrom(catalog, name, from + 1)
  }

  /** Position of the first catalog row named `name`, if any. */
  function FirstMatch(catalog: seq<AssetType>, name: string): (r: Option<nat>)
    ensures r.None? <==> forall j :: 0 <= j < |catalog| ==> catalog[j].name != name
    ensures r.Some? ==>
      && r.value < |catalog|
      && catalog[r.value].name == name
      && forall j :: 0 <= j < r.value ==> catalog[j].name != name
  {
    FirstMatchFrom(catalog, name, 0)
  }

  /**
   * Useful life of the asset `name`: that of the first row carrying the name,
   * None when no row does (the script then fails indexing an empty array).
   */
  function UsefulLife(catalog: seq<AssetType>, name: string): (r: Option<int>)
    ensures r.None? <==> forall j :: 0 <= j < |catalog| ==> catalog[j].name != name
    ensures r.Some? ==> exists i :: FirstRowNamed(catalog, name, i) && catalog[i].usefulLife == r.value
  {
    match FirstMatch(catalog, name)
    case None => None
    case Some(i) => Some(catalog[i].usefulLife)
  }

  /** Row `i` is the first one of the catalog named `name`. */
  ghost predicate FirstRowNamed(catalog: seq<AssetType>, name: string, i: int)
  {
    && 0 <= i < |catalog|
    && catalog[i].name == name
    && forall j :: 0 <= j < i ==> catalog[j].name != name
  }

  /** A name that occurs once reads that row's useful life, whatever the rest of the catalog holds. */
  lemma UniqueNameReadsItsRow(catalog: seq<AssetType>, i: int)
    requires 0 <= i < |catalog|
    requires forall j :: 0 <= j < |catalog| && j != i ==> catalog[j].name != catalog[i].name
    ensures UsefulLife(catalog, catalog[i].name) == Some(catalog[i].usefulLife)
  {
    var r := FirstMatch(catalog, catalog[i].name);
    assert r.Some? && r.value == i;
  }
}
