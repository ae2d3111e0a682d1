# Asset register: a Dafny model of its relational core

The asset register is a single-script inventory manager. It keeps two SQLite
tables: `locations` (sites) and `assets` (items, each assigned to one
location). On top of them it offers five operations: add a location, add an
asset, list all assets, search assets by name or description, and print a
per-location report.

This project models those tables and operations without a database:

- The store is an immutable `Schema.Store`. It holds both tables as sequences
  and, per table, the `sqlite_sequence` entry that `AUTOINCREMENT` keeps.
- Each operation is a pure function over the store.
- Each function's contract states what its SQL statement does.

Modules follow the program's parts:

- `Wrappers`: `Option` for NULL columns and for a query that does not run;
  `Result` for an operation that aborts.
- `Ordering`: the BINARY collation order on text (`StrLe`). It also holds the
  insertion sort that stands for `ORDER BY` and a `Filter` that stands for
  `WHERE`.
- `Text`: the Python string handling the script relies on. This is
  `str.strip()`, `int()` and substring containment.
- `Schema`: the tables, `initialize_database`, `add_location` and
  `add_asset`. It also defines the store invariant `Valid`: every asset
  references an existing location, and ids are positive, increasing and
  bounded by their sequence entry.
- `Queries`: `view_assets` and `search_assets`, both built on an inner join.
- `Reporting`: `generate_report`. It is a left join grouped by location, with
  a per-location asset query and a running total.

Three things the script calls into are parameters of the model:

- `LIKE '%term%'` is a parameter `matches(term, text)`.
- Python's `float()` is a parameter `parsePrice(text)` returning a `Float`.
- `int()` is modelled concretely (`Text.ParseInt`).

How the script's behaviour shapes the model:

- `add_location` returns nothing, so `AddLocation` returns only the new
  store. The new row and its id are stated in its contract.
- `add_asset` reads and parses the location id itself. So `AddAsset` takes
  the raw line and models a non-number as its own rejection.
- `search_assets` strips the term and refuses a blank one itself. So
  `SearchAssets` returns `None` (no query) for a blank term; it does not
  require a non-blank one.
- `int()` skips a narrower set of whitespace than `strip()`: the ASCII
  information separators U+001C..U+001F are whitespace to `strip()` but make
  `int()` fail. `ParseInt` strips with `IsIntSpace`, `search_assets` with
  `IsSpace`.
- A price line that `float()` reads as NaN (such as `nan`) is stored as
  NULL, because SQLite stores a bound NaN as NULL. `float()` returns a
  `Float` in the model, so that NaN and the infinities can be told apart.
- A malformed price raises a `ValueError` that the script does not catch
  (Asset_Reg.py:109). Nothing is inserted, and the exception ends the menu
  loop. The model keeps the "nothing inserted" part: `MalformedPrice` is a
  rejection with the store unchanged.
- A location number too large for SQLite's 64-bit INTEGER makes the query at
  line 89 raise an uncaught `OverflowError`. This is modelled as the
  rejection `SelectionOutOfRange`.
- The report prints its lines; the model returns them as a `Report` value.
  With no locations the script prints only a notice, so `GenerateReport`
  returns `None`.

## Model

| member | source | states |
|---|---|---|
| Schema.InitializeDatabase | Asset_Reg.py:4-38 | a database without the schema gets two empty tables that satisfy the invariant; an existing schema is returned untouched (`CREATE TABLE IF NOT EXISTS`) |
| Schema.InitializeIdempotent | Asset_Reg.py:10-35 | initialising an already initialised database changes nothing |
| Schema.EmptyStoreValid | Asset_Reg.py:10-35 | the freshly created empty tables satisfy the store invariant |
| Schema.NextId | Asset_Reg.py:12 | an AUTOINCREMENT id is greater than the table's sequence entry and than every id present, so it is fresh |
| Schema.AddLocation | Asset_Reg.py:45-56 | appends exactly one location with a fresh id and the four typed fields verbatim, with no emptiness or duplicate check; the earlier rows, the assets table and its counter are unchanged |
| Schema.AddLocationPreservesValid | Asset_Reg.py:53-56 | adding a location keeps the invariant (references, unique increasing ids) |
| Schema.FindLocation | Asset_Reg.py:89-92 | the lookup by id finds a location carrying that id, and finds none exactly when no location has it |
| Schema.Nullable | Asset_Reg.py:108-110 | an empty line becomes NULL and a non-empty line is kept verbatim |
| Schema.StoredReal | Asset_Reg.py:109-122 | a bound float is stored as NULL exactly when it is NaN, and otherwise as itself |
| Schema.CheckAssetForm | Asset_Reg.py:71-109 | `add_asset` rejects, in this order, an empty locations table, a selection `int()` refuses, a selection outside SQLite's INTEGER range, an id no location has, and a non-empty price `float()` refuses; each exactly in its case. When it accepts, it yields the selected location and the price to store, which is NULL exactly when the line is empty or reads as NaN |
| Schema.AddAsset | Asset_Reg.py:107-126 | the insert happens exactly when every check passes; a rejected check writes nothing and reports that check's error. On success exactly one asset is appended with a fresh id and the selected location's id. Its text fields are stored verbatim; empty dates are stored as NULL, and the price is NULL exactly when its line is empty or reads as NaN. The reported name is that location's. The locations table is unchanged |
| Schema.AddAssetPreservesValid | Asset_Reg.py:88-122 | a successful `add_asset` keeps the invariant; with the previous row, every asset keeps referencing an existing location |
| Text.StripBy | Asset_Reg.py:165 | `strip()` yields the slice of the input left after cutting whitespace at both ends, and the result neither starts nor ends with whitespace |
| Text.StripUnique | Asset_Reg.py:165 | any cut of the input that removes only whitespace and keeps none at its ends is the stripped string |
| Text.StripEmptyIffBlank | Asset_Reg.py:165-169 | a term strips to nothing exactly when it is all whitespace |
| Text.ParseInt | Asset_Reg.py:82-86 | `int()` accepts a line exactly when, after skipping its own whitespace, what remains is a well-formed digit string (single underscores between digits allowed), possibly after one `+` or `-` |
| Text.ParseIntDigits | Asset_Reg.py:83 | such a literal is read as its digit string's value, negated after a `-` |
| Text.ParseIntLeadingZero | Asset_Reg.py:83 | `int()` also reads the non-canonical forms `0` followed by `str(n)`, and `+` followed by `str(n)`, as `n` |
| Text.ParseIntUnderscore | Asset_Reg.py:83 | an underscore between two digit strings does not change what `int()` reads |
| Text.ParseIntSkipsSpace | Asset_Reg.py:83 | `int()` reads the same value whatever `int()`-whitespace surrounds the literal |
| Text.ParseIntRejectsSeparator | Asset_Reg.py:82-86 | a line that starts or ends with U+001C..U+001F is refused by `int()`, so `add_asset` rejects it, although `strip()` would remove those characters |
| Text.ParseShowRoundTrip | Asset_Reg.py:83 | `int()` of an integer's decimal rendering is that integer |
| Text.ContainsAt | Asset_Reg.py:178 | a term occurring at any position of a text is contained in it |
| Text.ContainsOnlyAt | Asset_Reg.py:178 | a contained term occurs at some position of the text |
| Ordering.StrLeIsTotalPreorder | Asset_Reg.py:137 | the BINARY collation order on text is total and transitive |
| Ordering.SortBy | Asset_Reg.py:137 | the sorted rows are a permutation of the input rows, and every earlier row sorts at or before every later row |
| Ordering.Filter | Asset_Reg.py:178 | a `WHERE` keeps every row satisfying the condition as often as it occurs, and nothing else |
| Queries.RowLeIsTotalPreorder | Asset_Reg.py:137 | ordering by location name and then asset name is total and transitive |
| Queries.Join | Asset_Reg.py:135-136 | a row is in the inner join exactly when it pairs an asset with a location whose id is the asset's `location_id` |
| Queries.JoinOnePerAsset | Asset_Reg.py:135-136 | under the invariant the inner join has exactly one row per asset |
| Queries.ViewAssets | Asset_Reg.py:133-140 | the listing is a permutation of the inner join, sorted by location name and then asset name |
| Queries.ViewAssetsRows | Asset_Reg.py:133-138 | a row is listed exactly when it is some asset joined to a location of its `location_id` |
| Queries.ViewAssetsCount | Asset_Reg.py:133-140 | under the invariant the listing has one row per asset |
| Queries.AddAssetThenView | Asset_Reg.py:133-137 | after a successful `add_asset`, the listing shows the new asset with the location name `add_asset` reported |
| Queries.SearchAssets | Asset_Reg.py:165-182 | a blank term runs no query. Otherwise the result is sorted like the listing, and each join row occurs in it as often as in the join when its name or description matches the stripped term, and not at all otherwise |
| Queries.SearchWithinListing | Asset_Reg.py:174-180 | search results are a sub-multiset of the listing |
| Queries.SearchFindsSubstring | Asset_Reg.py:174-180 | if `LIKE '%t%'` accepts every text containing `t`, an asset whose name or description contains the stripped term is found, joined to its location |
| Queries.SearchMissesAll | Asset_Reg.py:174-187 | a term that no joined row's name or description matches yields an empty result |
| Reporting.CountAt | Asset_Reg.py:207-210 | a location's `COUNT(a.asset_id)` is the number of assets whose `location_id` is its id: 0 exactly when none carries it, and never more than there are assets |
| Reporting.ItemsAt | Asset_Reg.py:233-238 | the per-location query returns each asset line as many times as assets at that location carry it |
| Reporting.ItemsAtMembers | Asset_Reg.py:233-238 | a line is returned exactly when some asset whose `location_id` is the location's id has it |
| Reporting.CountAtIsItemCount | Asset_Reg.py:207-240 | the count from the grouped query equals the number of lines the per-location query returns |
| Reporting.SectionContents | Asset_Reg.py:227-240 | a location's section carries that location, lists a permutation of its assets ordered by name, and its count is their number |
| Reporting.Sections | Asset_Reg.py:206-212 | the grouped query has one row per location, locations without assets included, each being that location's section |
| Reporting.GenerateReport | Asset_Reg.py:206-230 | no report exactly when there are no locations. Otherwise there is one section per location, sorted by location name, and the sections are a permutation of the grouped rows. Every location's section is present, and every section is its own location's |
| Reporting.TotalOfPermutation | Asset_Reg.py:225-230 | the running total does not depend on the order the sections are added in |
| Reporting.CountsPartitionAssets | Asset_Reg.py:206-212 | with unique location ids and every asset located, the per-location counts add up to the number of assets |
| Reporting.ReportTotalIsAssetCount | Asset_Reg.py:225-248 | under the invariant the printed total equals the number of assets, and a store without locations holds no assets |
| Reporting.SectionOnce | Asset_Reg.py:206-212 | with unique ids each location's group occurs exactly once among the grouped rows |
| Reporting.ReportListsEachLocationOnce | Asset_Reg.py:206-214 | under the invariant every location appears in the report exactly once |

## Left out

- Console I/O is not modelled: every `input`/`print`, the headers and the `main_menu` loop (Asset_Reg.py:251-283). The typed lines are fields of `LocationForm` and `AssetForm`; printed rows are returned values.
- The printed list of available locations (Asset_Reg.py:78-80) is not modelled. It is display only; it is the locations table in insertion order.
- Connection handling is not modelled: opening, committing and closing connections, and the connection left open on the early returns at Asset_Reg.py:76 and 86.
- The report's timestamp (Asset_Reg.py:223) is not modelled. It is nondeterministic and only printed.
- Floating point is not modelled: `float()` parsing is the parameter `parsePrice`, finite prices are `real` with no rounding, and the `:.2f` display with its price-truthiness test (Asset_Reg.py:246) is left out.
- SQLite's `LIKE` rules (ASCII case folding; `%` and `_` in the term as wildcards) are not modelled. `matches` is a parameter, and the substring law assumes only that containment implies a match.
- Foreign-key enforcement by SQLite is not modelled. Referential integrity rests on the explicit existence check at Asset_Reg.py:88-95.
- Dates are opaque strings. The code never validates the `YYYY-MM-DD` format.
- Text.ParseInt: accepts ASCII digits only. Python's `int()` also accepts other Unicode decimal digits, and refuses literals over 4300 digits; neither is modelled.
- Schema.InitializeDatabase: treats the schema as both tables or neither. A file holding only one of the two tables is not modelled.
- Schema.NextId: does not model exhausting the id space at 2^63-1, where SQLite fails the insert.
- Ending the process on the uncaught `ValueError` (malformed price) and `OverflowError` (selection too large) is not modelled. Both are rejections that leave the store unchanged.
- Reporting.GenerateReport: forms one group per location row, where `GROUP BY l.location_id` forms one group per id. The two agree because location ids are unique primary keys (part of `Valid`).
