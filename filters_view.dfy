/**
 * The filters screen's controller: the expansion flags of the four sections
 * and the category catalog, both updated in place by the user's taps and
 * switch changes, and the views of that state that the table and the caller
 * read from it.
 */
module FiltersView {
  import opened FilterModel

  class FiltersViewController {
    /** The preferences the screen was opened with; only the category codes are read. */
    var currentPrefs: Preferences
    /** The catalog with its live selection flags. */
    var categories: array<Category>
    /** Per section, whether all its rows are shown or only the first. */
    var sectionExpanded: array<bool>

    /**
     * One flag per section, the deal and category sections always expanded,
     * and the categories are the catalog in catalog order.
     */
    ghost predicate Valid()
      reads this, sectionExpanded, categories
    {
      && sectionExpanded.Length == |TableStructure|
      && sectionExpanded[0] && sectionExpanded[CategorySection]
      && CatalogEntries(categories[..])
    }

    /**
     * Opening the screen with `prefs`: the caller hands over the current
     * preferences and loading the view seeds the category flags from them.
     */
    constructor (prefs: Preferences)
      ensures Valid() && fresh(sectionExpanded) && fresh(categories)
      ensures currentPrefs == prefs
      ensures sectionExpanded[..] == [true, false, false, true]
      ensures categories[..] == SeedSelection(YelpCategories(), prefs.categories)
    {
      currentPrefs := prefs;
      sectionExpanded := new bool[] [true, false, false, true];
      categories := new Category[0];
      new;
      InitCategoriesSelected();
    }

    /**
     * Replaces the categories by a fresh copy of the catalog and selects each
     * entry iff its code is among the current preferences.
     */
    method InitCategoriesSelected()
      modifies this
      ensures fresh(categories)
      ensures currentPrefs == old(currentPrefs) && sectionExpanded == old(sectionExpanded)
      ensures CatalogEntries(categories[..])
      ensures forall i :: 0 <= i < categories.Length ==>
                (categories[i].selected <==> categories[i].code in currentPrefs.categories)
      ensures categories[..] == SeedSelection(YelpCategories(), currentPrefs.categories)
    {
      var catalog := YelpCategories();
      categories := new Category[|catalog|] (i requires 0 <= i < |catalog| => catalog[i]);
      var i := 0;
      while i < categories.Length
        modifies categories
        invariant 0 <= i <= categories.Length == |catalog|
        invariant forall k :: 0 <= k < i ==>
                    categories[k] == catalog[k].(selected := catalog[k].code in currentPrefs.categories)
        invariant forall k :: i <= k < categories.Length ==> categories[k] == catalog[k]
      {
        var category := categories[i];
        categories[i] := category.(selected := category.code in currentPrefs.categories);
        i := i + 1;
      }
    }

    /**
     * A tap on row `row` of section `section`: the header row of the distance
     * or sort section flips that section's flag; any other row changes nothing.
     */
    method SelectRow(section: int, row: int)
      requires Valid()
      modifies sectionExpanded
      ensures Valid()
      ensures sectionExpanded[..] == ExpansionAfterSelect(old(sectionExpanded[..]), section, row)
    {
      if (section == 1 || section == 2) && row == 0 {
        sectionExpanded[section] := !sectionExpanded[section];
      }
    }

    /** The number of rows the table shows in `section`. */
    function NumberOfRows(section: int): (n: int)
      requires Valid() && 0 <= section < |TableStructure|
      reads this, sectionExpanded, categories
      ensures n == RowCount(sectionExpanded[..], categories.Length, section)
      ensures section == CategorySection ==> n == |YelpCategories()|
      ensures section != CategorySection ==> 1 <= n <= |TableStructure[section]|
      ensures section != CategorySection ==> (n == |TableStructure[section]| <==> sectionExpanded[section])
    {
      RowCount(sectionExpanded[..], categories.Length, section)
    }

    /**
     * The cell the table shows at (section, row); every row the table asks
     * for, as bounded by NumberOfRows, is a valid index into its section.
     */
    function CellForRow(section: int, row: int): (c: Cell)
      requires Valid() && 0 <= section < |TableStructure| && 0 <= row < NumberOfRows(section)
      reads this, sectionExpanded, categories
      ensures c == CellAt(section, row, categories[..], currentPrefs.categories)
      ensures c.CategorySwitchCell? <==> section == CategorySection
      ensures c.CategorySwitchCell? ==> (c.on <==> YelpCategories()[row].code in currentPrefs.categories)
    {
      CellAt(section, row, categories[..], currentPrefs.categories)
    }

    /** The switch of category row `row` was set to `value`. */
    method SwitchChanged(row: int, value: bool)
      requires Valid() && 0 <= row < categories.Length
      modifies categories
      ensures Valid()
      ensures categories[..] == WithSelection(old(categories[..]), row, value)
    {
      categories[row] := categories[row].(selected := value);
    }

    /** The preferences snapshot: the codes of the selected categories, in catalog order. */
    method PreferencesFromTableData() returns (prefs: Preferences)
      requires Valid()
      ensures prefs.categories == SelectedCodes(categories[..])
      ensures NoDuplicates(prefs.categories)
      ensures forall c :: c in prefs.categories <==>
                exists i :: 0 <= i < categories.Length && categories[i].selected && categories[i].code == c
    {
      var selectedCategories: seq<string> := [];
      var i := 0;
      while i < categories.Length
        invariant 0 <= i <= categories.Length
        invariant selectedCategories == SelectedCodes(categories[..i])
      {
        assert categories[..i + 1] == categories[..i] + [categories[i]];
        SelectedCodesAppend(categories[..i], [categories[i]]);
        if categories[i].selected {
          selectedCategories := selectedCategories + [categories[i].code];
        }
        i := i + 1;
      }
      assert categories[..i] == categories[..];
      prefs := Preferences(selectedCategories);
      CatalogEntriesDistinct(categories[..]);
      SelectedCodesDistinct(categories[..]);
      forall c ensures c in prefs.categories <==>
                exists i :: 0 <= i < categories.Length && categories[i].selected && categories[i].code == c
      {
        SelectedCodesMembership(categories[..], c);
      }
    }
  }
}
