/** The two tables of the register and the operations that write them:
    creating the schema, adding a location, adding an asset. */
module Schema {
  import opened Wrappers
  import Text
  import Ordering

  /** A Python float as `float()` returns it. The model does not fix how a
      line is read as a number; it only tells NaN and the infinities apart
      from finite values, because SQLite stores them differently. */
  datatype Float = Finite(value: real) | Infinite(negative: bool) | NaN

  /** A row of `locations`. Text columns hold what was typed, verbatim. */
  datatype Location = Location(
    id: int,
    name: string,
    address: string,
    contactPerson: string,
    contactPhone: string)

  /** A row of `assets`. The three columns that may be left empty hold NULL
      (`None`) rather than an empty string. `purchasePrice` is the REAL that
      `float()` produced; it is never NaN, which SQLite stores as NULL. */
  datatype Asset = Asset(
    id: int,
    locationId: int,
    name: string,
    description: string,
    purchaseDate: Option<string>,
    purchasePrice: Option<Float>,
    serialNumber: string,
    category: string,
    condition: string,
    lastMaintenanceDate: Option<string>)

  /** Both tables, each with the `sqlite_sequence` entry that AUTOINCREMENT
      keeps: the largest id the table has ever issued. */
  datatype Store = Store(
    locations: seq<Location>,
    assets: seq<Asset>,
    locationSeq: int,
    assetSeq: int)

  /** The largest SQLite accepts for a bound INTEGER parameter. */
  const MaxInteger: int := 0x7FFF_FFFF_FFFF_FFFF
  const MinInteger: int := -0x8000_0000_0000_0000

  /** Ids issued in increasing order, hence unique. */
  predicate LocationIdsIncreasing(locations: seq<Location>) {
    forall i, j :: 0 <= i < j < |locations| ==> locations[i].id < locations[j].id
  }

  predicate AssetIdsIncreasing(assets: seq<Asset>) {
    forall i, j :: 0 <= i < j < |assets| ==> assets[i].id < assets[j].id
  }

  /** The referential invariant: every asset's `location_id` is the id of
      some location. */
  predicate EveryAssetLocated(assets: seq<Asset>, locations: seq<Location>) {
    forall i :: 0 <= i < |assets| ==> HasLocation(locations, assets[i].locationId)
  }

  /** A store in which every asset references an existing location and the
      ids of each table are positive, issued in increasing order (so unique)
      and never above the table's sequence entry. */
  ghost predicate Valid(s: Store) {
    && 0 <= s.locationSeq && 0 <= s.assetSeq
    && (forall i :: 0 <= i < |s.locations| ==> 0 < s.locations[i].id <= s.locationSeq)
    && (forall i :: 0 <= i < |s.assets| ==> 0 < s.assets[i].id <= s.assetSeq)
    && LocationIdsIncreasing(s.locations)
    && AssetIdsIncreasing(s.assets)
    && EveryAssetLocated(s.assets, s.locations)
  }

  predicate HasLocation(locations: seq<Location>, id: int) {
    exists j :: 0 <= j < |locations| && locations[j].id == id
  }

  const EmptyStore: Store := Store([], [], 0, 0)

  /** `CREATE TABLE IF NOT EXISTS` for both tables: `None` is a database file
      without the schema. */
  function InitializeDatabase(db: Option<Store>): (s: Store)
    ensures db.Some? ==> s == db.value
    ensures db.None? ==> s.locations == [] && s.assets == [] && Valid(s)
  {
    match db
    case None => EmptyStore
    case Some(existing) => existing
  }

  /** Running initialisation on a database it already initialised changes
      nothing. */
  lemma InitializeIdempotent(db: Option<Store>)
    ensures InitializeDatabase(Some(InitializeDatabase(db))) == InitializeDatabase(db)
  {
  }

  /** The largest of the ids, or 0 for none. */
  function MaxId(ids: seq<int>): (m: int)
    ensures m >= 0
    ensures forall k :: 0 <= k < |ids| ==> ids[k] <= m
    ensures m == 0 || m in ids
  {
    if |ids| == 0 then 0
    else
      var rest := MaxId(ids[1..]);
      assert forall k :: 1 <= k < |ids| ==> ids[k] == ids[1..][k - 1];
      if ids[0] > rest then ids[0] else rest
  }

  /** AUTOINCREMENT: one past both the sequence entry and every id present. */
  function NextId(seqEntry: int, ids: seq<int>): (id: int)
    ensures id > seqEntry
    ensures forall k :: 0 <= k < |ids| ==> ids[k] < id
  {
    (if seqEntry > MaxId(ids) then seqEntry else MaxId(ids)) + 1
  }

  /** What the location form collects. */
  datatype LocationForm = LocationForm(
    name: string,
    address: string,
    contactPerson: string,
    contactPhone: string)

  /** `add_location`: one INSERT, unconditionally. No field is checked: an
      empty name and a name already in use are both stored. */
  function AddLocation(s: Store, form: LocationForm): (r: Store)
    ensures |r.locations| == |s.locations| + 1
    ensures r.locations[..|s.locations|] == s.locations
    ensures r.assets == s.assets && r.assetSeq == s.assetSeq
    ensures var added := r.locations[|s.locations|];
            && added.name == form.name
            && added.address == form.address
            && added.contactPerson == form.contactPerson
            && added.contactPhone == form.contactPhone
            && added.id > s.locationSeq
            && (forall k :: 0 <= k < |s.locations| ==> s.locations[k].id < added.id)
            && r.locationSeq == added.id
  {
    var id := NextId(s.locationSeq, Ordering.Map((l: Location) => l.id, s.locations));
    var added := Location(id, form.name, form.address, form.contactPerson, form.contactPhone);
    s.(locations := s.locations + [added], locationSeq := id)
  }

  /** What the asset form collects: the typed location selection and the
      eight asset fields, each as the raw line read. */
  datatype AssetForm = AssetForm(
    selection: string,
    name: string,
    description: string,
    purchaseDate: string,
    purchasePrice: string,
    serialNumber: string,
    category: string,
    condition: string,
    lastMaintenanceDate: string)

  /** The ways `add_asset` ends without inserting, in the order it checks. */
  datatype AddAssetError =
    | NoLocations          // the locations table is empty
    | SelectionNotANumber  // `int()` rejected the selection
    | SelectionOutOfRange  // the selection does not fit SQLite's INTEGER
    | UnknownLocation      // no location has the selected id
    | MalformedPrice       // `float()` rejected a non-empty price

  /** A successful insert: the new store, the new asset's id and the name of
      the location it was added to. */
  datatype AssetAdded = AssetAdded(store: Store, assetId: int, locationName: string)

  /** The first location with the given id, as `fetchone()` returns it. */
  function FindLocation(locations: seq<Location>, id: int): (r: Option<Location>)
    ensures r.Some? ==> r.value in locations && r.value.id == id
    ensures r.None? <==> !HasLocation(locations, id)
  {
    if |locations| == 0 then None
    else if locations[0].id == id then Some(locations[0])
    else
      assert forall j :: 1 <= j < |locations| ==> locations[j] == locations[1..][j - 1];
      FindLocation(locations[1..], id)
  }

  /** An empty line stands for an unknown value, stored as NULL. */
  function Nullable(text: string): (r: Option<string>)
    ensures r.None? <==> text == ""
    ensures r.Some? ==> r.value == text
  {
    if text == "" then None else Some(text)
  }

  /** The value SQLite stores for a bound float: a NaN is stored as NULL,
      any other value as the REAL it is. */
  function StoredReal(x: Float): (r: Option<Float>)
    ensures r.None? <==> x.NaN?
    ensures r.Some? ==> r.value == x
  {
    if x.NaN? then None else Some(x)
  }

  /** What the checks of `add_asset` settle: the selected location and the
      price to store. */
  datatype Checked = Checked(location: Location, price: Option<Float>)

  /** The checks `add_asset` makes before its INSERT, in the order it makes
      them. `parsePrice` stands for Python's `float()`. */
  function CheckAssetForm(s: Store, form: AssetForm, parsePrice: string -> Option<Float>)
    : (r: Result<Checked, AddAssetError>)
    ensures r == Failure(NoLocations) <==> |s.locations| == 0
    ensures r == Failure(SelectionNotANumber)
            <==> |s.locations| > 0 && Text.ParseInt(form.selection).None?
    ensures r == Failure(SelectionOutOfRange)
            <==> && |s.locations| > 0
                 && Text.ParseInt(form.selection).Some?
                 && !(MinInteger <= Text.ParseInt(form.selection).value <= MaxInteger)
    ensures r == Failure(UnknownLocation)
            <==> && |s.locations| > 0
                 && Text.ParseInt(form.selection).Some?
                 && MinInteger <= Text.ParseInt(form.selection).value <= MaxInteger
                 && !HasLocation(s.locations, Text.ParseInt(form.selection).value)
    ensures r == Failure(MalformedPrice)
            <==> && |s.locations| > 0
                 && Text.ParseInt(form.selection).Some?
                 && MinInteger <= Text.ParseInt(form.selection).value <= MaxInteger
                 && HasLocation(s.locations, Text.ParseInt(form.selection).value)
                 && form.purchasePrice != ""
                 && parsePrice(form.purchasePrice).None?
    ensures r.Success? ==>
              && r.value.location in s.locations
              && Text.ParseInt(form.selection) == Some(r.value.location.id)
              && (r.value.price.None? <==>
                    form.purchasePrice == "" || parsePrice(form.purchasePrice) == Some(NaN))
              && (r.value.price.Some? ==>
                    parsePrice(form.purchasePrice) == r.value.price && !r.value.price.value.NaN?)
  {
    if |s.locations| == 0 then Failure(NoLocations)
    else match Text.ParseInt(form.selection)
      case None => Failure(SelectionNotANumber)
      case Some(selected) =>
        if !(MinInteger <= selected <= MaxInteger) then Failure(SelectionOutOfRange)
        else match FindLocation(s.locations, selected)
          case None => Failure(UnknownLocation)
          case Some(location) =>
            if form.purchasePrice == "" then Success(Checked(location, None))
            else match parsePrice(form.purchasePrice)
              case None => Failure(MalformedPrice)
              case Some(price) => Success(Checked(location, StoredReal(price)))
  }

  /** `add_asset`: the checks, then one INSERT. A failed check writes
      nothing. */
  function AddAsset(s: Store, form: AssetForm, parsePrice: string -> Option<Float>)
    : (r: Result<AssetAdded, AddAssetError>)
    ensures r.Success? <==> CheckAssetForm(s, form, parsePrice).Success?
    ensures CheckAssetForm(s, form, parsePrice).Failure? ==>
              r == Failure(CheckAssetForm(s, form, parsePrice).error)
    ensures r.Success? ==>
              var t := r.value.store;
              var location := CheckAssetForm(s, form, parsePrice).value.location;
              && CheckAssetForm(s, form, parsePrice).Success?
              && t.locations == s.locations && t.locationSeq == s.locationSeq
              && |t.assets| == |s.assets| + 1
              && t.assets[..|s.assets|] == s.assets
              && var added := t.assets[|s.assets|];
              && added.id == r.value.assetId == t.assetSeq
              && added.id > s.assetSeq
              && (forall k :: 0 <= k < |s.assets| ==> s.assets[k].id < added.id)
              && Text.ParseInt(form.selection) == Some(added.locationId)
              && location in s.locations
              && location.id == added.locationId
              && location.name == r.value.locationName
              && added.name == form.name
              && added.description == form.description
              && added.serialNumber == form.serialNumber
              && added.category == form.category
              && added.condition == form.condition
              && (added.purchaseDate.None? <==> form.purchaseDate == "")
              && (added.purchaseDate.Some? ==> added.purchaseDate.value == form.purchaseDate)
              && (added.lastMaintenanceDate.None? <==> form.lastMaintenanceDate == "")
              && (added.lastMaintenanceDate.Some? ==>
                    added.lastMaintenanceDate.value == form.lastMaintenanceDate)
              && (added.purchasePrice.None? <==>
                    form.purchasePrice == "" || parsePrice(form.purchasePrice) == Some(NaN))
              && (added.purchasePrice.Some? ==>
                    parsePrice(form.purchasePrice) == added.purchasePrice
                    && !added.purchasePrice.value.NaN?)
  {
    match CheckAssetForm(s, form, parsePrice)
    case Failure(e) => Failure(e)
    case Success(checked) =>
      var id := NextId(s.assetSeq, Ordering.Map((a: Asset) => a.id, s.assets));
      var added := Asset(id, checked.location.id, form.name, form.description,
                         Nullable(form.purchaseDate), checked.price,
                         form.serialNumber, form.category, form.condition,
                         Nullable(form.lastMaintenanceDate));
      Success(AssetAdded(s.(assets := s.assets + [added], assetSeq := id),
                         id, checked.location.name))
  }

  /** The empty store satisfies the invariant, and both inserts keep it. */
  lemma EmptyStoreValid()
    ensures Valid(EmptyStore)
  {
  }

  lemma AddLocationPreservesValid(s: Store, form: LocationForm)
    requires Valid(s)
    ensures Valid(AddLocation(s, form))
  {
    var r := AddLocation(s, form);
    forall i | 0 <= i < |r.assets| ensures HasLocation(r.locations, r.assets[i].locationId) {
      var j :| 0 <= j < |s.locations| && s.locations[j].id == s.assets[i].locationId;
      assert r.locations[j] == s.locations[j];
    }
  }

  /** Appending one asset with a fresh id that references an existing
      location keeps the invariant. */
  lemma AppendAssetPreservesValid(s: Store, t: Store)
    requires Valid(s)
    requires t.locations == s.locations && t.locationSeq == s.locationSeq
    requires |t.assets| == |s.assets| + 1 && t.assets[..|s.assets|] == s.assets
    requires t.assets[|s.assets|].id == t.assetSeq > s.assetSeq
    requires HasLocation(s.locations, t.assets[|s.assets|].locationId)
    ensures Valid(t)
  {
    forall i | 0 <= i < |s.assets| ensures t.assets[i] == s.assets[i] {
      assert t.assets[..|s.assets|][i] == t.assets[i];
    }
  }

  lemma AddAssetPreservesValid(s: Store, form: AssetForm, parsePrice: string -> Option<Float>)
    requires Valid(s)
    ensures AddAsset(s, form, parsePrice).Success? ==> Valid(AddAsset(s, form, parsePrice).value.store)
  {
    var r := AddAsset(s, form, parsePrice);
    if r.Success? {
      var t := r.value.store;
      var location := CheckAssetForm(s, form, parsePrice).value.location;
      var j :| 0 <= j < |s.locations| && s.locations[j] == location;
      assert HasLocation(s.locations, t.assets[|s.assets|].locationId);
      AppendAssetPreservesValid(s, t);
    }
  }
}
