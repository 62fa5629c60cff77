# Yelp search filters: the filter-selection model

This project models the state behind the Yelp client's filters screen
(`FiltersViewController`) and proves what that state does. The screen is a table with four
sections:

- the deal switch;
- the distance options;
- the sort options;
- the cuisine categories.

The controller keeps three pieces of state:

- the layout, `TableStructure`, which is fixed;
- a flag per section, `sectionExpanded`, which the user flips by tapping the first row of the
  distance or sort section;
- a 7-entry category catalog. Its `selected` flags are seeded from the preferences the screen
  was opened with, and each category switch then sets one of them.

From this state the controller derives three things:

- the number of rows per section;
- the cell each row shows;
- the preferences snapshot handed back on search. The snapshot holds the codes of the selected
  categories, in catalog order.

Two modules:

- `FilterModel` (`filter_model.dfy`) holds the value level:
  - the row identifiers (`PrefRow`) and their raw values;
  - the layout and the section titles;
  - the `Category` and `Preferences` values;
  - the pure functions that specify each operation (`ExpansionAfterSelect`, `RowCount`,
    `SeedSelection`, `WithSelection`, `SelectedCodes`, `CellAt`);
  - the lemmas about those functions.
- `FiltersView` (`filters_view.dfy`) holds the class `FiltersViewController`. Its two arrays
  are updated in place: `sectionExpanded` has 4 entries and `categories` has 7. Each method is
  proved against the functions above. The object invariant `Valid()` says that:
  - there is one flag per section;
  - the deal and category sections are always expanded;
  - the categories are the catalog in catalog order, and only their flags vary.

Behaviour of the code that the model keeps as written:

- Only row 0 of the distance or sort section toggles expansion. Other rows of those sections
  change nothing.
- The snapshot lists the codes in catalog order.
- A category switch shows whether its code was in the preferences the screen was opened with.
  It does not show the live `selected` flag, so a switch change leaves the shown cell unchanged.
- The deal switch's value is never set by the controller.

## Model

| member | source | states |
|---|---|---|
| `FilterModel.RawValue` | Yelp/FiltersViewController.swift:16-26 | every row identifier has a non-empty label |
| `FilterModel.RawValueInjective` | Yelp/FiltersViewController.swift:16-26 | two row identifiers have the same raw value iff they are the same identifier |
| `FilterModel.TableStructureShape` | Yelp/FiltersViewController.swift:36-40 | the layout has 4 sections of 1, 5, 3 and 0 rows, and the categories are the last section; each row identifier sits in the section of its group (deal, distance or sort) and appears there once; the default options Auto and Best Match come first |
| `FilterModel.TitleForHeader` | Yelp/FiltersViewController.swift:71-82 | a section has a non-empty title iff it is section 1, 2 or 3; the category section's title is "Categories" |
| `FilterModel.TitlesDistinct` | Yelp/FiltersViewController.swift:71-82 | the three titled sections have pairwise distinct titles |
| `FilterModel.ExpansionAfterSelect` | Yelp/FiltersViewController.swift:84-88 | a tap changes no flag except that of the tapped section; that flag changes iff the tap is on row 0 of section 1 or 2 |
| `FilterModel.SelectTwiceRestores` | Yelp/FiltersViewController.swift:84-88 | tapping the same row twice restores every expansion flag |
| `FilterModel.SelectKeepsFixedSections` | Yelp/FiltersViewController.swift:85-87 | no tap changes the flags of the deal section or the category section |
| `FilterModel.RowCount` | Yelp/FiltersViewController.swift:96-106 | the category section has as many rows as there are categories; any other section shows between 1 and its full row count; it shows the full count iff it is expanded (the deal section has only one row) |
| `FilterModel.RowCountValues` | Yelp/FiltersViewController.swift:96-106 | the deal section has 1 row; distance has 5 rows expanded and 1 collapsed; sort has 3 expanded and 1 collapsed; categories has the category count |
| `FilterModel.YelpCategories` | Yelp/FiltersViewController.swift:165-175 | the catalog has 7 entries; none is selected; names and codes are non-empty; the codes are pairwise distinct |
| `FilterModel.CatalogEntriesDistinct` | Yelp/FiltersViewController.swift:165-175 | any sequence that is the catalog with some flags changed still has distinct codes |
| `FilterModel.SeedSelection` | Yelp/FiltersViewController.swift:53-58 | seeding keeps each entry's name and code; an entry is selected iff its code occurs in the preferred codes |
| `FilterModel.WithSelection` | Yelp/FiltersViewController.swift:130-133 | a switch change sets the flag of that row to the switch's value; it changes nothing else in that entry and no other entry |
| `FilterModel.SelectedCodes` | Yelp/FiltersViewController.swift:149-163 | the snapshot is no longer than the category list |
| `FilterModel.SelectedCodesAppend` | Yelp/FiltersViewController.swift:153-158 | the snapshot of two concatenated lists is the concatenation of their snapshots (the loop appends one category at a time) |
| `FilterModel.PositionsSelected` | Yelp/FiltersViewController.swift:153-158 | the k-th snapshot code is the code of the k-th selected category |
| `FilterModel.PositionsIncreasing` | Yelp/FiltersViewController.swift:153-158 | the selected positions behind the snapshot strictly increase, so the snapshot keeps catalog order |
| `FilterModel.PositionsComplete` | Yelp/FiltersViewController.swift:153-158 | every selected category has its position among those behind the snapshot |
| `FilterModel.SelectedCodesMembership` | Yelp/FiltersViewController.swift:153-158 | a code is in the snapshot iff some selected category has that code |
| `FilterModel.SelectedCodesDistinct` | Yelp/FiltersViewController.swift:149-163 | if the category codes are distinct, the snapshot has no duplicates |
| `FilterModel.SelectedCodesEmpty` | Yelp/FiltersViewController.swift:149-163 | the snapshot is empty iff no category is selected |
| `FilterModel.SeedThenSnapshot` | Yelp/FiltersViewController.swift:53-58 | seeding the flags from a list of codes and then taking the snapshot gives the category codes that the list mentions, in category order |
| `FilterModel.OpenThenSnapshot` | Yelp/FiltersViewController.swift:149-163 | the snapshot taken right after opening with prefs is the catalog codes filtered by membership in prefs; it has no duplicates; a code is in it iff it is a catalog code and in prefs, so unknown codes are dropped and repeated codes collapse |
| `FilterModel.SnapshotThenSeed` | Yelp/FiltersViewController.swift:53-58 | seeding from a snapshot of the same categories restores every selection flag, so reopening the screen with the returned preferences restores the selection |
| `FilterModel.SnapshotAfterSwitch` | Yelp/FiltersViewController.swift:130-133 | after a switch change on row r, r's code is in the snapshot iff the new value is true; every other code is in it iff it was before |
| `FilterModel.KoreanThaiPlusSushi` | Yelp/FiltersViewController.swift:165-175 | opening with korean and thai and then switching Sushi (row 3) on gives the snapshot korean, sushi, thai |
| `FilterModel.CellAt` | Yelp/FiltersViewController.swift:108-128 | section 0 shows the deal switch; the last section shows category switches; sections 1 and 2 show dropdown rows; a category switch carries the category's name and is on iff its code was in the opening preferences; every other row is labelled with its identifier's raw value |
| `FilterModel.CategorySwitchShowsSeededFlag` | Yelp/FiltersViewController.swift:115 | right after opening, every category switch shows that category's seeded flag |
| `FilterModel.CategorySwitchIgnoresLiveFlag` | Yelp/FiltersViewController.swift:115 | a switch change does not alter the category cell shown for that row |
| `FiltersView.FiltersViewController.constructor` | Yelp/FiltersViewController.swift:42-58 | after opening with prefs, the expansion flags are [true, false, false, true] and the categories are the catalog seeded from prefs; the object invariant holds |
| `FiltersView.FiltersViewController.InitCategoriesSelected` | Yelp/FiltersViewController.swift:53-58 | categories become a fresh copy of the catalog in catalog order; each entry is selected iff its code is in the current preferences; the preferences and the expansion flags are untouched |
| `FiltersView.FiltersViewController.SelectRow` | Yelp/FiltersViewController.swift:84-94 | the new expansion flags are `ExpansionAfterSelect` of the old ones; the categories are untouched and the invariant is kept, so the deal and category sections stay expanded |
| `FiltersView.FiltersViewController.NumberOfRows` | Yelp/FiltersViewController.swift:96-106 | the category section has 7 rows; any other section has between 1 row and its layout's row count, and has the full count iff it is expanded |
| `FiltersView.FiltersViewController.CellForRow` | Yelp/FiltersViewController.swift:108-128 | every row below `NumberOfRows` is a valid index into its section; the cell is `CellAt` of the current state; a category switch is on iff that catalog code was in the opening preferences |
| `FiltersView.FiltersViewController.SwitchChanged` | Yelp/FiltersViewController.swift:130-133 | the new categories are `WithSelection` of the old ones at that row; the expansion flags are untouched and the invariant is kept |
| `FiltersView.FiltersViewController.PreferencesFromTableData` | Yelp/FiltersViewController.swift:149-163 | without changing any state, returns exactly the codes of the selected categories, in catalog order; it has no duplicates; a code is in it iff a selected category has that code |

## Left out

- Table-view wiring has no behaviour to model:
  - `initTableView`, which registers nibs and sets the delegate and data source;
  - cell dequeueing;
  - `reloadSections` and `deselectRowAtIndexPath`. The animation argument on line 93 is an
    editor placeholder that does not compile as written.
- `numberOfSectionsInTableView` only returns the layout's section count. `TableStructureShape`
  states that count is 4.
- `onCancel` and `didReceiveMemoryWarning` are left out: they only dismiss the screen or do
  nothing.
- `onSearch` is left out. It dismisses the screen and passes `PreferencesFromTableData()` to
  the delegate, and the delegate is outside this model.
- `switchCell(_:didChangeValue:)` finds the row with `tableView.indexPathForCell`, a table-view
  lookup. `SwitchChanged` takes that row as a parameter instead.
- The deal switch's value is not modelled. The controller never sets that switch's value, and
  it sets no delegate on a freshly created deal cell, so changing that switch reaches no state.
  Deal and category cells share one reuse identifier (line 111). Only category cells get the
  delegate (line 113), and the deal branch does not clear it (lines 116-118). A recycled
  category cell shown as the deal row could therefore still report changes. Line 132 would
  then set the flag of category row 0 (French), which is `SwitchChanged(0, value)` in this
  model. Whether this happens depends on the switch cell class, which is not part of this model.
- `prefValues` is not modelled. It is declared but never read or written.
- The deal, distance and sort choices are never written into the returned preferences. The model
  does not add them.
- `Category` and `Preferences` are defined in files that are not part of this model.
  - `Category` is modelled as a value (name, code, selected) stored in an array. In the source
    it is a reference type updated in place. Only the controller's own list holds these
    objects, so updating the array entry has the same effect. Aliasing between category
    objects is not modelled.
  - `Preferences` is reduced to its category-code list, the only field the controller reads or
    writes.
- Out-of-range indices are excluded by `requires` rather than modelled as an error path:
  - a section outside 0..3 in `NumberOfRows` and `CellForRow`;
  - a row at or past `NumberOfRows` in `CellForRow`;
  - a category row outside 0..6 in `SwitchChanged`.

  The table view never asks for these rows. Only indices outside the layout or the catalog trap
  on array access in the source. Rows 1-4 of a collapsed distance section and rows 1-2 of a
  collapsed sort section lie inside the layout. For those rows the source would return that
  option's dropdown cell.
- Codes are compared as sequences of code points. Swift's `contains` on strings (lines 56 and
  115) compares by Unicode canonical equivalence. The two agree on the catalog's seven ASCII
  codes. The lemmas stated for any category list use code-point equality.
