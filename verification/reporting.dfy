/** `generate_report`: every location, ordered by name, with the number of
    assets it holds, those assets ordered by name, and the running total of
    the counts. */
module Reporting {
  import opened Wrappers
  import opened Ordering
  import opened Schema

  /** One asset line of a section: `name, category, condition,
      purchase_date, purchase_price`. */
  datatype ReportItem = ReportItem(
    name: string,
    category: string,
    condition: string,
    purchaseDate: Option<string>,
    purchasePrice: Option<Float>)

  /** One location row of the grouped query, with its asset lines. */
  datatype ReportSection = ReportSection(location: Location, count: nat, items: seq<ReportItem>)

  datatype Report = Report(sections: seq<ReportSection>, total: nat)

  function ItemOf(a: Asset): ReportItem {
    ReportItem(a.name, a.category, a.condition, a.purchaseDate, a.purchasePrice)
  }

  /** The `location_id` column of an asset row. */
  function LocationOf(a: Asset): int {
    a.locationId
  }

  /** An asset's `location_id` together with its report line. */
  function Placement(a: Asset): (int, ReportItem) {
    (a.locationId, ItemOf(a))
  }

  /** `COUNT(a.asset_id)` over the group of location `id` in the left join:
      the number of assets carrying that id, 0 when there are none. */
  function CountAt(assets: seq<Asset>, id: int): (n: nat)
    ensures n <= |assets|
    ensures n == multiset(Map(LocationOf, assets))[id]
    ensures n == 0 <==> forall i :: 0 <= i < |assets| ==> assets[i].locationId != id
  {
    if |assets| == 0 then 0
    else
      assert forall i :: 1 <= i < |assets| ==> assets[i] == assets[1..][i - 1];
      (if assets[0].locationId == id then 1 else 0) + CountAt(assets[1..], id)
  }

  /** `SELECT ... FROM assets WHERE location_id = ?`, before `ORDER BY`:
      each line as often as assets at location `id` carry it. */
  function ItemsAt(assets: seq<Asset>, id: int): (r: seq<ReportItem>)
    ensures forall x :: multiset(r)[x] == multiset(Map(Placement, assets))[(id, x)]
  {
    if |assets| == 0 then []
    else
      var here := if assets[0].locationId == id then [ItemOf(assets[0])] else [];
      var rest := ItemsAt(assets[1..], id);
      ItemsAtStep(assets, id, here, rest);
      here + rest
  }

  /** One step of `ItemsAt`: the first asset's line, if it is at `id`,
      followed by the lines of the others. */
  lemma ItemsAtStep(assets: seq<Asset>, id: int, here: seq<ReportItem>, rest: seq<ReportItem>)
    requires |assets| > 0
    requires here == if assets[0].locationId == id then [ItemOf(assets[0])] else []
    requires forall x :: multiset(rest)[x] == multiset(Map(Placement, assets[1..]))[(id, x)]
    ensures forall x :: multiset(here + rest)[x] == multiset(Map(Placement, assets))[(id, x)]
  {
    var placed := Map(Placement, assets);
    assert placed == [Placement(assets[0])] + Map(Placement, assets[1..]);
    forall x ensures multiset(here + rest)[x] == multiset(placed)[(id, x)] {
      var one := if Placement(assets[0]) == (id, x) then 1 else 0;
      assert multiset(here)[x] == one;
      assert multiset(placed)[(id, x)] == one + multiset(Map(Placement, assets[1..]))[(id, x)];
    }
  }

  /** The per-location query returns exactly the lines of the assets at
      that location. */
  lemma ItemsAtMembers(assets: seq<Asset>, id: int, x: ReportItem)
    ensures x in ItemsAt(assets, id) <==>
              exists i :: 0 <= i < |assets| && assets[i].locationId == id && x == ItemOf(assets[i])
  {
    var placed := Map(Placement, assets);
    assert (x in ItemsAt(assets, id)) == (x in multiset(ItemsAt(assets, id)));
    assert ((id, x) in placed) == ((id, x) in multiset(placed));
    if (id, x) in placed {
      var i :| 0 <= i < |placed| && placed[i] == (id, x);
      assert assets[i].locationId == id && x == ItemOf(assets[i]);
    }
    if exists i :: 0 <= i < |assets| && assets[i].locationId == id && x == ItemOf(assets[i]) {
      var i :| 0 <= i < |assets| && assets[i].locationId == id && x == ItemOf(assets[i]);
      assert placed[i] == (id, x);
    }
  }

  /** The count from the grouped query and the list from the per-location
      query agree. */
  lemma {:induction false} CountAtIsItemCount(assets: seq<Asset>, id: int)
    ensures CountAt(assets, id) == |ItemsAt(assets, id)|
  {
    if |assets| > 0 {
      CountAtIsItemCount(assets[1..], id);
    }
  }

  /** Per-location `ORDER BY name`. */
  predicate ItemLe(a: ReportItem, b: ReportItem) {
    StrLe(a.name, b.name)
  }

  /** `ORDER BY l.name` on the grouped rows. */
  predicate SectionLe(a: ReportSection, b: ReportSection) {
    StrLe(a.location.name, b.location.name)
  }

  lemma ItemLeIsTotalPreorder()
    ensures TotalPreorder(ItemLe)
  {
    StrLeIsTotalPreorder();
  }

  lemma SectionLeIsTotalPreorder()
    ensures TotalPreorder(SectionLe)
  {
    StrLeIsTotalPreorder();
  }

  /** The section printed for location `l`: its count from the grouped
      query and its asset lines from the per-location query. */
  function SectionFor(assets: seq<Asset>, l: Location): ReportSection {
    ItemLeIsTotalPreorder();
    ReportSection(l, CountAt(assets, l.id), SortBy(ItemLe, ItemsAt(assets, l.id)))
  }

  /** A section lists exactly its location's assets, ordered by name, and its
      count is their number. */
  lemma SectionContents(assets: seq<Asset>, l: Location)
    ensures SectionFor(assets, l).location == l
    ensures SectionFor(assets, l).count == |SectionFor(assets, l).items|
    ensures SortedBy(ItemLe, SectionFor(assets, l).items)
    ensures multiset(SectionFor(assets, l).items) == multiset(ItemsAt(assets, l.id))
  {
    CountAtIsItemCount(assets, l.id);
  }

  /** The grouped rows of `LEFT JOIN ... GROUP BY l.location_id`, in table
      order: one per location, those without assets included. */
  function Sections(assets: seq<Asset>, locations: seq<Location>): (r: seq<ReportSection>)
    ensures |r| == |locations|
    ensures forall k :: 0 <= k < |locations| ==> SectionFor(assets, locations[k]) in r
    ensures forall x :: x in r ==> x.location in locations && x == SectionFor(assets, x.location)
  {
    if |locations| == 0 then []
    else
      assert forall k :: 1 <= k < |locations| ==> locations[k] == locations[1..][k - 1];
      [SectionFor(assets, locations[0])] + Sections(assets, locations[1..])
  }

  /** The running total the report prints: the section counts summed in
      order. */
  function TotalOf(sections: seq<ReportSection>): nat {
    if |sections| == 0 then 0 else sections[0].count + TotalOf(sections[1..])
  }

  /** `generate_report`. With no locations it reports nothing (`None`). */
  function GenerateReport(s: Store): (r: Option<Report>)
    ensures r.None? <==> |s.locations| == 0
    ensures r.Some? ==>
              && |r.value.sections| == |s.locations|
              && SortedBy(SectionLe, r.value.sections)
              && multiset(r.value.sections) == multiset(Sections(s.assets, s.locations))
              && (forall k :: 0 <= k < |s.locations| ==>
                    SectionFor(s.assets, s.locations[k]) in r.value.sections)
              && (forall x :: x in r.value.sections ==>
                    x.location in s.locations && x == SectionFor(s.assets, x.location))
              && r.value.total == TotalOf(Sections(s.assets, s.locations))
  {
    if |s.locations| == 0 then None
    else
      SectionLeIsTotalPreorder();
      var grouped := Sections(s.assets, s.locations);
      var sections := SortBy(SectionLe, grouped);
      assert forall x :: x in sections <==> x in grouped by {
        forall x ensures x in sections <==> x in grouped {
          assert (x in sections) == (x in multiset(sections));
          assert (x in grouped) == (x in multiset(grouped));
        }
      }
      TotalOfPermutation(sections, grouped);
      Some(Report(sections, TotalOf(sections)))
  }

  lemma {:induction false} TotalOfConcat(a: seq<ReportSection>, b: seq<ReportSection>)
    ensures TotalOf(a + b) == TotalOf(a) + TotalOf(b)
  {
    if |a| == 0 {
      assert a + b == b;
    } else {
      assert (a + b)[0] == a[0];
      assert (a + b)[1..] == a[1..] + b;
      TotalOfConcat(a[1..], b);
    }
  }

  lemma TotalOfCons(x: ReportSection, rest: seq<ReportSection>)
    ensures TotalOf([x] + rest) == x.count + TotalOf(rest)
  {
    assert ([x] + rest)[1..] == rest;
  }

  /** Taking one section out of the sum. */
  lemma {:induction false} TotalOfRemove(b: seq<ReportSection>, k: int)
    requires 0 <= k < |b|
    ensures TotalOf(b) == b[k].count + TotalOf(b[..k] + b[k + 1..])
  {
    var before, after := b[..k], b[k + 1..];
    assert b == before + ([b[k]] + after);
    TotalOfConcat(before, [b[k]] + after);
    TotalOfCons(b[k], after);
    TotalOfConcat(before, after);
  }

  /** The running total does not depend on the order of the sections. */
  lemma {:induction false} TotalOfPermutation(a: seq<ReportSection>, b: seq<ReportSection>)
    requires multiset(a) == multiset(b)
    ensures TotalOf(a) == TotalOf(b)
    decreases |a|
  {
    if |a| == 0 {
      assert |b| == |multiset(b)| == 0;
    } else {
      var x := a[0];
      assert x in multiset(b);
      var k :| 0 <= k < |b| && b[k] == x;
      var rest := b[..k] + b[k + 1..];
      TotalOfRemove(b, k);
      assert b == b[..k] + [x] + b[k + 1..];
      assert multiset(b) == multiset(b[..k]) + multiset{x} + multiset(b[k + 1..]);
      assert multiset(rest) == multiset(b[..k]) + multiset(b[k + 1..]);
      assert a == [x] + a[1..];
      assert multiset(a) == multiset{x} + multiset(a[1..]);
      assert multiset(a[1..]) == multiset(a) - multiset{x};
      assert multiset(rest) == multiset(b) - multiset{x};
      TotalOfPermutation(a[1..], rest);
    }
  }

  /** How many locations carry id `x`. */
  function NumWithId(locations: seq<Location>, x: int): nat {
    if |locations| == 0 then 0
    else (if locations[0].id == x then 1 else 0) + NumWithId(locations[1..], x)
  }

  lemma {:induction false} NumWithIdAbsent(locations: seq<Location>, x: int)
    requires !HasLocation(locations, x)
    ensures NumWithId(locations, x) == 0
  {
    if |locations| > 0 {
      assert !HasLocation(locations[1..], x);
      NumWithIdAbsent(locations[1..], x);
    }
  }

  lemma {:induction false} NumWithIdUnique(locations: seq<Location>, x: int)
    requires LocationIdsIncreasing(locations)
    requires HasLocation(locations, x)
    ensures NumWithId(locations, x) == 1
  {
    if locations[0].id == x {
      assert !HasLocation(locations[1..], x);
      NumWithIdAbsent(locations[1..], x);
    } else {
      var j :| 0 <= j < |locations| && locations[j].id == x;
      assert locations[1..][j - 1].id == x;
      NumWithIdUnique(locations[1..], x);
    }
  }

  /** The counts of the given locations, summed. */
  function CountsOver(assets: seq<Asset>, locations: seq<Location>): nat {
    if |locations| == 0 then 0
    else CountAt(assets, locations[0].id) + CountsOver(assets, locations[1..])
  }

  lemma {:induction false} TotalOfSections(assets: seq<Asset>, locations: seq<Location>)
    ensures TotalOf(Sections(assets, locations)) == CountsOver(assets, locations)
  {
    if |locations| > 0 {
      assert Sections(assets, locations)[1..] == Sections(assets, locations[1..]);
      TotalOfSections(assets, locations[1..]);
    }
  }

  lemma {:induction false} CountsOverNoAssets(locations: seq<Location>)
    ensures CountsOver([], locations) == 0
  {
    if |locations| > 0 {
      CountsOverNoAssets(locations[1..]);
    }
  }

  /** Adding one asset in front adds one to the count of every location
      carrying its id. */
  lemma {:induction false} CountsOverCons(a: Asset, rest: seq<Asset>, locations: seq<Location>)
    ensures CountsOver([a] + rest, locations) == NumWithId(locations, a.locationId) + CountsOver(rest, locations)
  {
    if |locations| > 0 {
      assert ([a] + rest)[1..] == rest;
      CountsOverCons(a, rest, locations[1..]);
    }
  }

  /** With unique location ids and every asset located, the counts
      partition the assets. */
  lemma {:induction false} CountsPartitionAssets(assets: seq<Asset>, locations: seq<Location>)
    requires LocationIdsIncreasing(locations)
    requires EveryAssetLocated(assets, locations)
    ensures CountsOver(assets, locations) == |assets|
  {
    if |assets| == 0 {
      CountsOverNoAssets(locations);
    } else {
      var a, rest := assets[0], assets[1..];
      assert [a] + rest == assets;
      CountsOverCons(a, rest, locations);
      NumWithIdUnique(locations, assets[0].locationId);
      assert EveryAssetLocated(assets[1..], locations) by {
        assert forall i :: 1 <= i < |assets| ==> assets[i] == assets[1..][i - 1];
      }
      CountsPartitionAssets(assets[1..], locations);
    }
  }

  /** Under the invariant the report's total is the number of assets, and a
      store without locations holds no assets either. */
  lemma ReportTotalIsAssetCount(s: Store)
    requires Valid(s)
    ensures GenerateReport(s).Some? ==> GenerateReport(s).value.total == |s.assets|
    ensures GenerateReport(s).None? ==> s.assets == []
  {
    if |s.assets| > 0 {
      assert HasLocation(s.locations, s.assets[0].locationId);
    }
    if |s.locations| > 0 {
      TotalOfSections(s.assets, s.locations);
      CountsPartitionAssets(s.assets, s.locations);
    }
  }

  /** With increasing ids the first location does not recur. */
  lemma FirstLocationNotRepeated(locations: seq<Location>)
    requires LocationIdsIncreasing(locations)
    requires |locations| > 0
    ensures locations[0] !in locations[1..]
  {
    forall j | 0 <= j < |locations| - 1 ensures locations[1..][j] != locations[0] {
      assert locations[0].id < locations[j + 1].id;
    }
  }

  /** A location not listed has no group. */
  lemma SectionOfUnlisted(assets: seq<Asset>, locations: seq<Location>, l: Location)
    requires l !in locations
    ensures multiset(Sections(assets, locations))[SectionFor(assets, l)] == 0
  {
    assert SectionFor(assets, l) !in Sections(assets, locations);
  }

  /** With unique ids, the group of a listed location occurs exactly once
      among the grouped rows. */
  lemma {:induction false} SectionOnce(assets: seq<Asset>, locations: seq<Location>, k: int)
    requires LocationIdsIncreasing(locations)
    requires 0 <= k < |locations|
    ensures multiset(Sections(assets, locations))[SectionFor(assets, locations[k])] == 1
  {
    var target := SectionFor(assets, locations[k]);
    var first := SectionFor(assets, locations[0]);
    var rest := Sections(assets, locations[1..]);
    assert Sections(assets, locations) == [first] + rest;
    assert multiset(Sections(assets, locations)) == multiset{first} + multiset(rest);
    if k == 0 {
      FirstLocationNotRepeated(locations);
      SectionOfUnlisted(assets, locations[1..], locations[0]);
    } else {
      assert locations[0].id < locations[k].id;
      assert first.location != target.location;
      assert locations[1..][k - 1] == locations[k];
      assert LocationIdsIncreasing(locations[1..]);
      SectionOnce(assets, locations[1..], k - 1);
    }
  }

  /** Every location appears in the report exactly once, with its own count
      and asset list. */
  lemma ReportListsEachLocationOnce(s: Store, k: int)
    requires Valid(s)
    requires 0 <= k < |s.locations|
    ensures GenerateReport(s).Some?
    ensures multiset(GenerateReport(s).value.sections)[SectionFor(s.assets, s.locations[k])] == 1
  {
    SectionOnce(s.assets, s.locations, k);
  }
}
