/**
 * The value-level part of the Yelp filters screen: the row identifiers and
 * the fixed table layout, the category catalog, the preferences snapshot and
 * the pure functions that the view controller's operations are specified by.
 */
module FilterModel {

  // ---------------------------------------------------------------------------
  // Row identifiers and the fixed table layout
  // ---------------------------------------------------------------------------

  /** The selectable rows of the deal, distance and sort sections. */
  datatype PrefRow =
    | Deal
    | DistanceAuto | Distance03 | Distance1 | Distance5 | Distance20
    | SortBestMatch | SortDistance | SortHighestRated

  /** The row's label, which is also its raw value as an identifier. */
  function RawValue(r: PrefRow): (text: string)
    ensures text != ""
  {
    match r
    case Deal => "Deal"
    case DistanceAuto => "Auto"
    case Distance03 => "0.3 miles"
    case Distance1 => "1 mile"
    case Distance5 => "5 miles"
    case Distance20 => "20 miles"
    case SortBestMatch => "Best Match"
    case SortDistance => "Distance"
    case SortHighestRated => "Highest Rated"
  }

  /** The section a row identifier belongs to by its meaning. */
  function GroupOf(r: PrefRow): nat
  {
    match r
    case Deal => 0
    case DistanceAuto | Distance03 | Distance1 | Distance5 | Distance20 => 1
    case SortBestMatch | SortDistance | SortHighestRated => 2
  }

  /** Deal, distance options, sort options, and an empty stand-in for the categories. */
  const TableStructure: seq<seq<PrefRow>> := [
    [Deal],
    [DistanceAuto, Distance03, Distance1, Distance5, Distance20],
    [SortBestMatch, SortDistance, SortHighestRated],
    []]

  /** The last section lists the categories instead of its (empty) row identifiers. */
  const CategorySection: int := |TableStructure| - 1

  /** Raw values tell row identifiers apart. */
  lemma RawValueInjective(r1: PrefRow, r2: PrefRow)
    ensures RawValue(r1) == RawValue(r2) <==> r1 == r2
  {
  }

  /**
   * The layout has four sections of 1, 5, 3 and 0 rows; every row identifier
   * sits in the section of its group, appears there once, and the first row of
   * the distance and sort sections is their default option.
   */
  lemma TableStructureShape()
    ensures |TableStructure| == 4 && CategorySection == 3
    ensures |TableStructure[0]| == 1 && |TableStructure[1]| == 5
    ensures |TableStructure[2]| == 3 && TableStructure[CategorySection] == []
    ensures forall s, k :: 0 <= s < |TableStructure| && 0 <= k < |TableStructure[s]| ==>
              GroupOf(TableStructure[s][k]) == s
    ensures forall s, k, l :: 0 <= s < |TableStructure| && 0 <= k < l < |TableStructure[s]| ==>
              TableStructure[s][k] != TableStructure[s][l]
    ensures TableStructure[1][0] == DistanceAuto && TableStructure[2][0] == SortBestMatch
  {
  }

  /** The header title of a section; sections without a title get the empty string. */
  function TitleForHeader(section: int): (title: string)
    ensures title != "" <==> 1 <= section <= CategorySection
    ensures section == CategorySection ==> title == "Categories"
  {
    match section
    case 1 => "Distance"
    case 2 => "Sort By"
    case 3 => "Categories"
    case _ => ""
  }

  /** Titled sections have distinct titles. */
  lemma TitlesDistinct(s: int, t: int)
    requires 1 <= s <= CategorySection && 1 <= t <= CategorySection
    ensures TitleForHeader(s) == TitleForHeader(t) <==> s == t
  {
  }

  // ---------------------------------------------------------------------------
  // Section expansion
  // ---------------------------------------------------------------------------

  /** Only the header rows of the distance and sort sections collapse and expand. */
  predicate IsExpansionToggle(section: int, row: int)
  {
    (section == 1 || section == 2) && row == 0
  }

  /** The expansion flags after the row at (section, row) is tapped. */
  function ExpansionAfterSelect(expanded: seq<bool>, section: int, row: int): (r: seq<bool>)
    requires |expanded| == |TableStructure|
    ensures |r| == |expanded|
    ensures forall k :: 0 <= k < |r| && k != section ==> r[k] == expanded[k]
    ensures 0 <= section < |r| ==> (r[section] != expanded[section] <==> IsExpansionToggle(section, row))
  {
    if IsExpansionToggle(section, row) then expanded[section := !expanded[section]] else expanded
  }

  /** Tapping the same row twice restores the expansion flags. */
  lemma SelectTwiceRestores(expanded: seq<bool>, section: int, row: int)
    requires |expanded| == |TableStructure|
    ensures ExpansionAfterSelect(ExpansionAfterSelect(expanded, section, row), section, row) == expanded
  {
  }

  /** The deal and category sections are never collapsed by a tap. */
  lemma SelectKeepsFixedSections(expanded: seq<bool>, section: int, row: int)
    requires |expanded| == |TableStructure|
    ensures ExpansionAfterSelect(expanded, section, row)[0] == expanded[0]
    ensures ExpansionAfterSelect(expanded, section, row)[CategorySection] == expanded[CategorySection]
  {
  }

  /** The number of rows a section shows, given the expansion flags and the category count. */
  function RowCount(expanded: seq<bool>, categoryCount: nat, section: int): (n: nat)
    requires |expanded| == |TableStructure| && 0 <= section < |TableStructure|
    ensures section == CategorySection ==> n == categoryCount
    ensures section != CategorySection ==> 1 <= n <= |TableStructure[section]|
    ensures section != CategorySection ==> (n == |TableStructure[section]| <==> expanded[section] || section == 0)
  {
    if section == CategorySection then categoryCount
    else if expanded[section] then |TableStructure[section]|
    else 1
  }

  /** The row counts of each section, as a user sees them. */
  lemma RowCountValues(expanded: seq<bool>, categoryCount: nat)
    requires |expanded| == |TableStructure|
    ensures RowCount(expanded, categoryCount, 0) == 1
    ensures RowCount(expanded, categoryCount, 1) == if expanded[1] then 5 else 1
    ensures RowCount(expanded, categoryCount, 2) == if expanded[2] then 3 else 1
    ensures RowCount(expanded, categoryCount, 3) == categoryCount
  {
  }

  // ---------------------------------------------------------------------------
  // Categories and the preferences snapshot
  // ---------------------------------------------------------------------------

  /** One cuisine filter: display name, wire code and whether it is selected. */
  datatype Category = Category(name: string, code: string, selected: bool)

  /** The preferences handed back to the caller; only the category codes are written. */
  datatype Preferences = Preferences(categories: seq<string>)

  predicate NoDuplicates(s: seq<string>)
  {
    forall i, j :: 0 <= i < j < |s| ==> s[i] != s[j]
  }

  predicate DistinctCodes(cs: seq<Category>)
  {
    forall i, j :: 0 <= i < j < |cs| ==> cs[i].code != cs[j].code
  }

  function Codes(cs: seq<Category>): (r: seq<string>)
    ensures |r| == |cs| && forall i :: 0 <= i < |cs| ==> r[i] == cs[i].code
  {
    seq(|cs|, i requires 0 <= i < |cs| => cs[i].code)
  }

  /** The fixed catalog, nothing selected. */
  function YelpCategories(): (cs: seq<Category>)
    ensures |cs| == 7
    ensures forall i :: 0 <= i < |cs| ==> !cs[i].selected && cs[i].name != "" && cs[i].code != ""
    ensures DistinctCodes(cs)
  {
    [ Category("French", "french", false),
      Category("Korean", "korean", false),
      Category("Japanese", "japanese", false),
      Category("Sushi", "sushi", false),
      Category("Tapas", "tapas", false),
      Category("Thai", "thai", false),
      Category("Vietnamese", "vietnamese", false) ]
  }

  /** cs is the catalog, in catalog order, with any selection flags. */
  ghost predicate CatalogEntries(cs: seq<Category>)
  {
    |cs| == |YelpCategories()| &&
    forall i :: 0 <= i < |cs| ==> cs[i].(selected := false) == YelpCategories()[i]
  }

  lemma CatalogEntriesDistinct(cs: seq<Category>)
    requires CatalogEntries(cs)
    ensures DistinctCodes(cs)
  {
  }

  /** The selection flags seeded from a list of preferred codes. */
  function SeedSelection(cs: seq<Category>, prefs: seq<string>): (r: seq<Category>)
    ensures |r| == |cs|
    ensures forall i :: 0 <= i < |cs| ==>
              r[i].(selected := cs[i].selected) == cs[i] && (r[i].selected <==> cs[i].code in prefs)
  {
    seq(|cs|, i requires 0 <= i < |cs| => cs[i].(selected := cs[i].code in prefs))
  }

  /** The categories after the switch of category row `row` is set to `value`. */
  function WithSelection(cs: seq<Category>, row: int, value: bool): (r: seq<Category>)
    requires 0 <= row < |cs|
    ensures |r| == |cs| && r[row].selected == value
    ensures r[row].(selected := cs[row].selected) == cs[row]
    ensures forall i :: 0 <= i < |cs| && i != row ==> r[i] == cs[i]
  {
    cs[row := cs[row].(selected := value)]
  }

  /** The codes of the selected categories, in catalog order. */
  function SelectedCodes(cs: seq<Category>): (r: seq<string>)
    ensures |r| <= |cs|
  {
    if cs == [] then []
    else (if cs[0].selected then [cs[0].code] else []) + SelectedCodes(cs[1..])
  }

  /** The codes of xs that occur in prefs, in the order of xs. */
  function FilterIn(xs: seq<string>, prefs: seq<string>): (r: seq<string>)
    ensures |r| <= |xs|
  {
    if xs == [] then []
    else (if xs[0] in prefs then [xs[0]] else []) + FilterIn(xs[1..], prefs)
  }

  lemma {:induction false} SelectedCodesAppend(a: seq<Category>, b: seq<Category>)
    ensures SelectedCodes(a + b) == SelectedCodes(a) + SelectedCodes(b)
  {
    if a == [] {
      assert a + b == b;
    } else {
      var head := if a[0].selected then [a[0].code] else [];
      assert (a + b)[0] == a[0] && (a + b)[1..] == a[1..] + b;
      calc {
        SelectedCodes(a + b);
        head + SelectedCodes(a[1..] + b);
        { SelectedCodesAppend(a[1..], b); }
        head + (SelectedCodes(a[1..]) + SelectedCodes(b));
        { assert head + (SelectedCodes(a[1..]) + SelectedCodes(b))
            == (head + SelectedCodes(a[1..])) + SelectedCodes(b); }
        SelectedCodes(a) + SelectedCodes(b);
      }
    }
  }

  /** Every index moved one place up. */
  function Shifted(pos: seq<int>): (r: seq<int>)
    ensures |r| == |pos| && forall k :: 0 <= k < |pos| ==> r[k] == pos[k] + 1
  {
    seq(|pos|, k requires 0 <= k < |pos| => pos[k] + 1)
  }

  /** The indices of the selected categories, in increasing order. */
  ghost function SelectedPositions(cs: seq<Category>): (pos: seq<int>)
    ensures |pos| == |SelectedCodes(cs)|
    ensures forall k :: 0 <= k < |pos| ==> 0 <= pos[k] < |cs|
  {
    if cs == [] then []
    else (if cs[0].selected then [0] else []) + Shifted(SelectedPositions(cs[1..]))
  }

  /** codes[k] is the code of the selected category at position pos[k]. */
  predicate Enumerates(cs: seq<Category>, pos: seq<int>, codes: seq<string>)
  {
    |pos| == |codes| &&
    forall k :: 0 <= k < |pos| ==> 0 <= pos[k] < |cs| && cs[pos[k]].selected && codes[k] == cs[pos[k]].code
  }

  /** An enumeration of cs[1..] extends to cs by shifting it and adding the head when it is selected. */
  lemma EnumeratesCons(cs: seq<Category>, rest: seq<int>, tail: seq<string>)
    requires cs != [] && Enumerates(cs[1..], rest, tail)
    ensures Enumerates(cs, (if cs[0].selected then [0] else []) + Shifted(rest),
                       (if cs[0].selected then [cs[0].code] else []) + tail)
  {
    var pos := (if cs[0].selected then [0] else []) + Shifted(rest);
    var codes := (if cs[0].selected then [cs[0].code] else []) + tail;
    var h := if cs[0].selected then 1 else 0;
    forall k | 0 <= k < |pos| ensures 0 <= pos[k] < |cs| && cs[pos[k]].selected && codes[k] == cs[pos[k]].code {
      if k >= h {
        assert pos[k] == rest[k - h] + 1 && codes[k] == tail[k - h];
        assert cs[1..][rest[k - h]] == cs[pos[k]];
      }
    }
  }

  /** The k-th code of the snapshot is the code of the k-th selected category. */
  lemma {:induction false} PositionsSelected(cs: seq<Category>)
    ensures Enumerates(cs, SelectedPositions(cs), SelectedCodes(cs))
  {
    if cs != [] {
      PositionsSelected(cs[1..]);
      EnumeratesCons(cs, SelectedPositions(cs[1..]), SelectedCodes(cs[1..]));
    }
  }

  predicate StrictlyIncreasing(s: seq<int>)
  {
    forall k, l :: 0 <= k < l < |s| ==> s[k] < s[l]
  }

  /** Shifting non-negative increasing indices up by one leaves room for a leading 0. */
  lemma ShiftedIncreasing(p: seq<int>, withZero: bool)
    requires StrictlyIncreasing(p) && forall k :: 0 <= k < |p| ==> 0 <= p[k]
    ensures StrictlyIncreasing((if withZero then [0] else []) + Shifted(p))
  {
    var q := (if withZero then [0] else []) + Shifted(p);
    var h := if withZero then 1 else 0;
    forall k, l | 0 <= k < l < |q| ensures q[k] < q[l] {
      assert q[l] == p[l - h] + 1;
      if k >= h {
        assert q[k] == p[k - h] + 1;
      }
    }
  }

  /** The selected positions are strictly increasing: the snapshot keeps catalog order. */
  lemma {:induction false} PositionsIncreasing(cs: seq<Category>)
    ensures StrictlyIncreasing(SelectedPositions(cs))
  {
    if cs != [] {
      PositionsIncreasing(cs[1..]);
      ShiftedIncreasing(SelectedPositions(cs[1..]), cs[0].selected);
    }
  }

  /** Every selected category has its position listed. */
  lemma {:induction false} PositionsComplete(cs: seq<Category>)
    ensures forall i :: 0 <= i < |cs| && cs[i].selected ==> i in SelectedPositions(cs)
  {
    if cs != [] {
      PositionsComplete(cs[1..]);
      var pos, rest := SelectedPositions(cs), SelectedPositions(cs[1..]);
      var h := if cs[0].selected then 1 else 0;
      forall i | 0 <= i < |cs| && cs[i].selected ensures i in pos {
        if i > 0 {
          assert cs[1..][i - 1] == cs[i];
          var k :| 0 <= k < |rest| && rest[k] == i - 1;
          assert pos[h + k] == i;
        }
      }
    }
  }

  /** A code is in the snapshot iff some selected category has it. */
  lemma SelectedCodesMembership(cs: seq<Category>, c: string)
    ensures c in SelectedCodes(cs) <==> exists i :: 0 <= i < |cs| && cs[i].selected && cs[i].code == c
  {
    var pos := SelectedPositions(cs);
    PositionsSelected(cs);
    PositionsIncreasing(cs);
    PositionsComplete(cs);
    if c in SelectedCodes(cs) {
      var k :| 0 <= k < |SelectedCodes(cs)| && SelectedCodes(cs)[k] == c;
      assert cs[pos[k]].selected && cs[pos[k]].code == c;
    }
    if i :| 0 <= i < |cs| && cs[i].selected && cs[i].code == c {
      var k :| 0 <= k < |pos| && pos[k] == i;
      assert SelectedCodes(cs)[k] == c;
    }
  }

  /** With distinct codes the snapshot has no duplicates. */
  lemma SelectedCodesDistinct(cs: seq<Category>)
    requires DistinctCodes(cs)
    ensures NoDuplicates(SelectedCodes(cs))
  {
    var pos := SelectedPositions(cs);
    PositionsSelected(cs);
    PositionsIncreasing(cs);
    PositionsComplete(cs);
    var r := SelectedCodes(cs);
    forall k, l | 0 <= k < l < |r| ensures r[k] != r[l] {
      assert pos[k] < pos[l];
    }
  }

  /** The snapshot is empty exactly when nothing is selected. */
  lemma SelectedCodesEmpty(cs: seq<Category>)
    ensures SelectedCodes(cs) == [] <==> forall i :: 0 <= i < |cs| ==> !cs[i].selected
  {
    var pos := SelectedPositions(cs);
    PositionsSelected(cs);
    PositionsIncreasing(cs);
    PositionsComplete(cs);
    if SelectedCodes(cs) != [] {
      assert cs[pos[0]].selected;
    }
  }

  /** A code survives the membership filter iff it is in both lists. */
  lemma {:induction false} FilterInMembership(xs: seq<string>, prefs: seq<string>, c: string)
    ensures c in FilterIn(xs, prefs) <==> c in xs && c in prefs
  {
    if xs != [] {
      FilterInMembership(xs[1..], prefs, c);
      assert xs == [xs[0]] + xs[1..];
    }
  }

  /**
   * Seeding the flags from prefs and then taking the snapshot yields the
   * catalog codes filtered by membership in prefs.
   */
  lemma {:induction false} SeedThenSnapshot(cs: seq<Category>, prefs: seq<string>)
    ensures SelectedCodes(SeedSelection(cs, prefs)) == FilterIn(Codes(cs), prefs)
  {
    if cs != [] {
      assert SeedSelection(cs, prefs)[1..] == SeedSelection(cs[1..], prefs);
      assert Codes(cs)[1..] == Codes(cs[1..]);
      SeedThenSnapshot(cs[1..], prefs);
    }
  }

  /** The catalog's codes, in catalog order. */
  const CatalogCodes: seq<string> := ["french", "korean", "japanese", "sushi", "tapas", "thai", "vietnamese"]

  /**
   * The snapshot taken right after opening the screen with prefs: the catalog
   * codes that prefs mentions, in catalog order and each once; codes of prefs
   * outside the catalog are dropped and repeated ones collapse.
   */
  lemma OpenThenSnapshot(prefs: seq<string>)
    ensures SelectedCodes(SeedSelection(YelpCategories(), prefs)) == FilterIn(CatalogCodes, prefs)
    ensures NoDuplicates(FilterIn(CatalogCodes, prefs))
    ensures forall c :: c in FilterIn(CatalogCodes, prefs) <==> c in CatalogCodes && c in prefs
  {
    var seeded := SeedSelection(YelpCategories(), prefs);
    assert Codes(YelpCategories()) == CatalogCodes;
    SeedThenSnapshot(YelpCategories(), prefs);
    forall i, j | 0 <= i < j < |seeded| ensures seeded[i].code != seeded[j].code {
      assert seeded[i].code == YelpCategories()[i].code && seeded[j].code == YelpCategories()[j].code;
    }
    SelectedCodesDistinct(seeded);
    forall c ensures c in FilterIn(CatalogCodes, prefs) <==> c in CatalogCodes && c in prefs {
      FilterInMembership(CatalogCodes, prefs, c);
    }
  }

  /**
   * Opening the screen with the preferences straight from a snapshot restores
   * every selection flag.
   */
  lemma SnapshotThenSeed(cs: seq<Category>)
    requires DistinctCodes(cs)
    ensures SeedSelection(cs, SelectedCodes(cs)) == cs
  {
    var r := SeedSelection(cs, SelectedCodes(cs));
    forall i | 0 <= i < |cs| ensures r[i] == cs[i] {
      SelectedCodesMembership(cs, cs[i].code);
    }
  }

  /**
   * After a switch change on row `row`, that row's code is in the snapshot iff
   * the new value is true; every other code is in it iff it was before.
   */
  lemma SnapshotAfterSwitch(cs: seq<Category>, row: int, value: bool, c: string)
    requires DistinctCodes(cs) && 0 <= row < |cs|
    ensures c in SelectedCodes(WithSelection(cs, row, value)) <==>
              if c == cs[row].code then value else c in SelectedCodes(cs)
  {
    var cs' := WithSelection(cs, row, value);
    SelectedCodesMembership(cs, c);
    SelectedCodesMembership(cs', c);
    if c == cs[row].code && value {
      assert cs'[row].selected && cs'[row].code == c;
    }
  }

  /**
   * The end-to-end scenario: open with korean and thai, switch sushi on, and
   * the snapshot lists korean, sushi and thai in catalog order.
   */
  lemma KoreanThaiPlusSushi()
    ensures YelpCategories()[3].name == "Sushi"
    ensures SelectedCodes(WithSelection(SeedSelection(YelpCategories(), ["korean", "thai"]), 3, true))
              == ["korean", "sushi", "thai"]
  {
    var cs := WithSelection(SeedSelection(YelpCategories(), ["korean", "thai"]), 3, true);
    assert cs == [ Category("French", "french", false),
                   Category("Korean", "korean", true),
                   Category("Japanese", "japanese", false),
                   Category("Sushi", "sushi", true),
                   Category("Tapas", "tapas", false),
                   Category("Thai", "thai", true),
                   Category("Vietnamese", "vietnamese", false) ];
  }

  // ---------------------------------------------------------------------------
  // Cells
  // ---------------------------------------------------------------------------

  /**
   * What a table row shows: the deal switch (its value is left to the cell),
   * a category switch with its label and value, or a dropdown option.
   */
  datatype Cell =
    | DealSwitchCell(text: string)
    | CategorySwitchCell(text: string, on: bool)
    | DropdownCell(text: string)

  /**
   * The cell at (section, row). A category switch shows whether the code was in
   * the preferences the screen was opened with.
   */
  function CellAt(section: int, row: int, cs: seq<Category>, prefs: seq<string>): (c: Cell)
    requires 0 <= section < |TableStructure|
    requires section == CategorySection ==> 0 <= row < |cs|
    requires section != CategorySection ==> 0 <= row < |TableStructure[section]|
    ensures c.DealSwitchCell? <==> section == 0
    ensures c.CategorySwitchCell? <==> section == CategorySection
    ensures c.DropdownCell? <==> section == 1 || section == 2
    ensures c.CategorySwitchCell? ==> c.text == cs[row].name && (c.on <==> cs[row].code in prefs)
    ensures !c.CategorySwitchCell? ==> c.text != "" && c.text == RawValue(TableStructure[section][row])
  {
    if section == CategorySection || section == 0 then
      if section == CategorySection then
        CategorySwitchCell(cs[row].name, cs[row].code in prefs)
      else
        DealSwitchCell(RawValue(TableStructure[section][row]))
    else
      DropdownCell(RawValue(TableStructure[section][row]))
  }

  /** Right after the flags are seeded, every category switch shows its flag. */
  lemma CategorySwitchShowsSeededFlag(prefs: seq<string>, row: int)
    requires 0 <= row < |YelpCategories()|
    ensures CellAt(CategorySection, row, SeedSelection(YelpCategories(), prefs), prefs).on
              == SeedSelection(YelpCategories(), prefs)[row].selected
  {
  }

  /**
   * A switch change does not alter what the category row shows: the switch
   * keeps showing the initial preference, not the live flag.
   */
  lemma CategorySwitchIgnoresLiveFlag(cs: seq<Category>, prefs: seq<string>, row: int, value: bool)
    requires 0 <= row < |cs|
    ensures CellAt(CategorySection, row, WithSelection(cs, row, value), prefs)
              == CellAt(CategorySection, row, cs, prefs)
  {
  }
}
