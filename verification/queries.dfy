/** `view_assets` and `search_assets`: the inner join of assets with their
    locations, ordered by location name and then asset name, optionally
    filtered by a `LIKE '%term%'` on name or description. */
module Queries {
  import opened Wrappers
  import opened Ordering
  import opened Text
  import opened Schema

  /** One result row: `a.asset_id, l.name, a.name, a.description,
      a.category, a.condition`. */
  datatype AssetView = AssetView(
    assetId: int,
    locationName: string,
    name: string,
    description: string,
    category: string,
    condition: string)

  function ViewOf(a: Asset, l: Location): AssetView {
    AssetView(a.id, l.name, a.name, a.description, a.category, a.condition)
  }

  /** `ORDER BY l.name, a.name`. */
  predicate RowLe(v: AssetView, w: AssetView) {
    || StrLt(v.locationName, w.locationName)
    || (v.locationName == w.locationName && StrLe(v.name, w.name))
  }

  lemma RowLeIsTotalPreorder()
    ensures TotalPreorder(RowLe)
  {
    forall v, w ensures RowLe(v, w) || RowLe(w, v) {
      StrLeTotal(v.locationName, w.locationName);
      StrLeTotal(v.name, w.name);
    }
    forall u, v, w | RowLe(u, v) && RowLe(v, w) ensures RowLe(u, w) {
      if u.locationName == v.locationName == w.locationName {
        StrLeTransitive(u.name, v.name, w.name);
      } else if u.locationName == v.locationName {
        assert StrLt(u.locationName, w.locationName);
      } else if v.locationName == w.locationName {
        assert StrLt(u.locationName, w.locationName);
      } else {
        StrLtTransitive(u.locationName, v.locationName, w.locationName);
      }
    }
  }

  /** The rows `a` contributes to `JOIN locations l ON a.location_id =
      l.location_id`: one per location carrying its id. */
  function JoinAsset(a: Asset, locations: seq<Location>): (r: seq<AssetView>)
    ensures forall v :: v in r <==>
              exists j :: 0 <= j < |locations| && locations[j].id == a.locationId
                          && v == ViewOf(a, locations[j])
  {
    if |locations| == 0 then []
    else
      var rest := JoinAsset(a, locations[1..]);
      assert forall j :: 1 <= j < |locations| ==> locations[j] == locations[1..][j - 1];
      (if locations[0].id == a.locationId then [ViewOf(a, locations[0])] else []) + rest
  }

  /** The inner join, before ordering. */
  function Join(assets: seq<Asset>, locations: seq<Location>): (r: seq<AssetView>)
    ensures forall v :: v in r <==>
              exists i, j :: 0 <= i < |assets| && 0 <= j < |locations|
                             && assets[i].locationId == locations[j].id
                             && v == ViewOf(assets[i], locations[j])
  {
    if |assets| == 0 then []
    else
      var rest := Join(assets[1..], locations);
      assert forall i :: 1 <= i < |assets| ==> assets[i] == assets[1..][i - 1];
      JoinAsset(assets[0], locations) + rest
  }

  /** With unique location ids an asset whose location exists joins exactly
      once. */
  lemma {:induction false} JoinAssetOnce(a: Asset, locations: seq<Location>)
    requires LocationIdsIncreasing(locations)
    requires HasLocation(locations, a.locationId)
    ensures |JoinAsset(a, locations)| == 1
  {
    if locations[0].id == a.locationId {
      JoinAssetNone(a, locations[1..]);
    } else {
      var j :| 0 <= j < |locations| && locations[j].id == a.locationId;
      assert locations[1..][j - 1].id == a.locationId;
      JoinAssetOnce(a, locations[1..]);
    }
  }

  lemma JoinAssetNone(a: Asset, locations: seq<Location>)
    requires forall j :: 0 <= j < |locations| ==> locations[j].id != a.locationId
    ensures JoinAsset(a, locations) == []
  {
    if JoinAsset(a, locations) != [] {
      assert JoinAsset(a, locations)[0] in JoinAsset(a, locations);
    }
  }

  /** Under the invariant the join loses and duplicates nothing: one row per
      asset. */
  lemma {:induction false} JoinOnePerAsset(assets: seq<Asset>, locations: seq<Location>)
    requires LocationIdsIncreasing(locations)
    requires EveryAssetLocated(assets, locations)
    ensures |Join(assets, locations)| == |assets|
  {
    if |assets| > 0 {
      JoinAssetOnce(assets[0], locations);
      assert EveryAssetLocated(assets[1..], locations) by {
        assert forall i :: 1 <= i < |assets| ==> assets[i] == assets[1..][i - 1];
      }
      JoinOnePerAsset(assets[1..], locations);
    }
  }

  /** `view_assets`: the joined rows, ordered by location name and then
      asset name. */
  function ViewAssets(s: Store): (r: seq<AssetView>)
    ensures SortedBy(RowLe, r)
    ensures multiset(r) == multiset(Join(s.assets, s.locations))
  {
    RowLeIsTotalPreorder();
    SortBy(RowLe, Join(s.assets, s.locations))
  }

  /** A row is listed exactly when it pairs an asset with a location of the
      asset's `location_id`. */
  lemma ViewAssetsRows(s: Store, v: AssetView)
    ensures v in ViewAssets(s) <==>
              exists i, j :: 0 <= i < |s.assets| && 0 <= j < |s.locations|
                             && s.assets[i].locationId == s.locations[j].id
                             && v == ViewOf(s.assets[i], s.locations[j])
  {
    assert (v in ViewAssets(s)) == (v in multiset(ViewAssets(s)));
    assert (v in Join(s.assets, s.locations)) == (v in multiset(Join(s.assets, s.locations)));
  }

  /** Under the invariant the listing has one row per asset. */
  lemma ViewAssetsCount(s: Store)
    requires Valid(s)
    ensures |ViewAssets(s)| == |s.assets|
  {
    JoinOnePerAsset(s.assets, s.locations);
    assert |ViewAssets(s)| == |multiset(ViewAssets(s))|;
  }

  /** A successfully added asset is listed, joined to the location name
      `add_asset` reported. */
  lemma AddAssetThenView(s: Store, form: AssetForm, parsePrice: string -> Option<Float>)
    requires AddAsset(s, form, parsePrice).Success?
    ensures var added := AddAsset(s, form, parsePrice).value;
            AssetView(added.assetId, added.locationName, form.name, form.description,
                      form.category, form.condition)
              in ViewAssets(added.store)
  {
    var added := AddAsset(s, form, parsePrice).value;
    var t := added.store;
    var i := |s.assets|;
    var location := CheckAssetForm(s, form, parsePrice).value.location;
    var j :| 0 <= j < |s.locations| && s.locations[j] == location;
    assert ViewOf(t.assets[i], t.locations[j])
           == AssetView(added.assetId, added.locationName, form.name, form.description,
                        form.category, form.condition);
    ViewAssetsRows(t, ViewOf(t.assets[i], t.locations[j]));
  }

  /** `a.name LIKE '%term%' OR a.description LIKE '%term%'`, where
      `matches(term, text)` stands for `text LIKE '%' || term || '%'`. */
  predicate Hit(matches: (string, string) -> bool, term: string, v: AssetView) {
    matches(term, v.name) || matches(term, v.description)
  }

  /** `search_assets`. A term that is blank after `strip()` runs no query
      (`None`); otherwise the joined rows that match, in listing order. */
  function SearchAssets(s: Store, rawTerm: string, matches: (string, string) -> bool)
    : (r: Option<seq<AssetView>>)
    ensures r.None? <==> forall k :: 0 <= k < |rawTerm| ==> IsSpace(rawTerm[k])
    ensures r.Some? ==> SortedBy(RowLe, r.value)
    ensures r.Some? ==>
              forall v :: multiset(r.value)[v]
                          == if Hit(matches, Strip(rawTerm), v)
                             then multiset(Join(s.assets, s.locations))[v] else 0
  {
    var term := Strip(rawTerm);
    StripEmptyIffBlank(rawTerm);
    if term == [] then None
    else
      RowLeIsTotalPreorder();
      Some(SortBy(RowLe, Filter(v => Hit(matches, term, v), Join(s.assets, s.locations))))
  }

  /** Search returns a sub-multiset of the listing. */
  lemma SearchWithinListing(s: Store, rawTerm: string, matches: (string, string) -> bool)
    requires SearchAssets(s, rawTerm, matches).Some?
    ensures multiset(SearchAssets(s, rawTerm, matches).value) <= multiset(ViewAssets(s))
  {
  }

  /** The substring law: when `LIKE '%t%'` accepts at least every text
      containing `t` (as SQLite's does), an asset whose name or description
      contains the stripped term is found, joined to its location. */
  lemma SearchFindsSubstring(s: Store, rawTerm: string, matches: (string, string) -> bool,
                             i: int, j: int)
    requires forall t, x :: Contains(t, x) ==> matches(t, x)
    requires Strip(rawTerm) != []
    requires 0 <= i < |s.assets| && 0 <= j < |s.locations|
    requires s.assets[i].locationId == s.locations[j].id
    requires Contains(Strip(rawTerm), s.assets[i].name)
             || Contains(Strip(rawTerm), s.assets[i].description)
    ensures SearchAssets(s, rawTerm, matches).Some?
    ensures ViewOf(s.assets[i], s.locations[j]) in SearchAssets(s, rawTerm, matches).value
  {
    StripEmptyIffBlank(rawTerm);
    var v := ViewOf(s.assets[i], s.locations[j]);
    var joined := Join(s.assets, s.locations);
    assert v in joined;
    assert Hit(matches, Strip(rawTerm), v);
    var r := SearchAssets(s, rawTerm, matches).value;
    assert multiset(r)[v] == multiset(joined)[v] > 0;
  }

  /** A sequence no element of which is counted is empty. */
  lemma EmptyWhenNothingCounted(r: seq<AssetView>)
    requires forall v :: multiset(r)[v] == 0
    ensures r == []
  {
    assert multiset(r) == multiset{};
    assert |r| == |multiset(r)|;
  }

  lemma NoJoinedRowHits(s: Store, term: string, matches: (string, string) -> bool)
    requires forall i, j :: 0 <= i < |s.assets| && 0 <= j < |s.locations|
                            && s.assets[i].locationId == s.locations[j].id
                            ==> !Hit(matches, term, ViewOf(s.assets[i], s.locations[j]))
    ensures forall v :: v in Join(s.assets, s.locations) ==> !Hit(matches, term, v)
  {
  }

  /** A term no joined row matches finds nothing. */
  lemma SearchMissesAll(s: Store, rawTerm: string, matches: (string, string) -> bool)
    requires Strip(rawTerm) != []
    requires forall i, j :: 0 <= i < |s.assets| && 0 <= j < |s.locations|
                            && s.assets[i].locationId == s.locations[j].id
                            ==> !Hit(matches, Strip(rawTerm), ViewOf(s.assets[i], s.locations[j]))
    ensures SearchAssets(s, rawTerm, matches) == Some([])
  {
    StripEmptyIffBlank(rawTerm);
    var joined := Join(s.assets, s.locations);
    NoJoinedRowHits(s, Strip(rawTerm), matches);
    var r := SearchAssets(s, rawTerm, matches).value;
    forall v ensures multiset(r)[v] == 0 {
      if v !in joined {
        assert multiset(joined)[v] == 0;
      }
    }
    EmptyWhenNothingCounted(r);
  }
}
