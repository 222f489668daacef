/** The state machine of `src/components/SearchableSelect.tsx`: which
    options are listed, which one is selected, and how keys, clicks and the
    server search change the component's state. The parent's `onChange` is
    the log `changes`; `onSearch` is present when `hasOnSearch` holds, and
    its answer is handed to `PerformSearch`. */
module Select {
  import opened Strings

  datatype SelectOption = SelectOption(value: string, labelText: string, group: Option<string>)

  /** `opts.find((opt) => opt.value === value)` */
  function FindByValue(opts: seq<SelectOption>, value: string): (r: Option<SelectOption>)
    ensures r.None? <==> forall i :: 0 <= i < |opts| ==> opts[i].value != value
    ensures r.Some? ==> exists i :: (0 <= i < |opts| && opts[i] == r.value && r.value.value == value
                                     && forall j :: 0 <= j < i ==> opts[j].value != value)
  {
    if opts == [] then None
    else if opts[0].value == value then Some(opts[0])
    else
      var r := FindByValue(opts[1..], value);
      assert forall i :: 1 <= i < |opts| ==> opts[i] == opts[1..][i - 1];
      r
  }

  /** `selectedOption`: looked up in the given options first, then in the
      last search results. */
  function SelectedOption(initial: seq<SelectOption>, results: seq<SelectOption>, value: string)
    : (r: Option<SelectOption>)
    ensures r.Some? ==> r.value.value == value && (r.value in initial || r.value in results)
    ensures r.None? <==> (forall o :: o in initial ==> o.value != value) && (forall o :: o in results ==> o.value != value)
    ensures (exists o :: o in initial && o.value == value) ==> r == FindByValue(initial, value)
  {
    var fromInitial := FindByValue(initial, value);
    if fromInitial.Some? then fromInitial else FindByValue(results, value)
  }

  /** `opt.label.toLowerCase().includes(search.toLowerCase())` */
  predicate LabelMatches(o: SelectOption, search: string) {
    Contains(Lower(o.labelText), Lower(search))
  }

  /** `options.filter(...)` by label, keeping order. */
  function FilterByLabel(opts: seq<SelectOption>, search: string): (r: seq<SelectOption>)
    ensures forall o :: o in r <==> o in opts && LabelMatches(o, search)
    ensures |r| <= |opts|
  {
    if opts == [] then []
    else
      assert opts == [opts[0]] + opts[1..];
      (if LabelMatches(opts[0], search) then [opts[0]] else []) + FilterByLabel(opts[1..], search)
  }

  /** Filtering keeps order: it distributes over concatenation, and a single
      option is kept exactly when its label matches. */
  lemma {:induction false} FilterByLabelAppend(a: seq<SelectOption>, b: seq<SelectOption>, search: string)
    ensures FilterByLabel(a + b, search) == FilterByLabel(a, search) + FilterByLabel(b, search)
    decreases |a|
  {
    if a == [] {
      assert a + b == b;
    } else {
      assert (a + b)[0] == a[0] && (a + b)[1..] == a[1..] + b;
      FilterByLabelAppend(a[1..], b, search);
    }
  }

  lemma FilterByLabelSingle(o: SelectOption, search: string)
    ensures FilterByLabel([o], search) == (if LabelMatches(o, search) then [o] else [])
  {
    assert [o][1..] == [];
  }

  /** When every option matches, filtering keeps the list as it is; in
      particular an empty search keeps every option. */
  lemma {:induction false} FilterAllMatch(opts: seq<SelectOption>, search: string)
    requires forall i :: 0 <= i < |opts| ==> LabelMatches(opts[i], search)
    ensures FilterByLabel(opts, search) == opts
  {
    if opts != [] {
      FilterAllMatch(opts[1..], search);
    }
  }

  lemma EmptySearchKeepsAll(opts: seq<SelectOption>)
    ensures FilterByLabel(opts, "") == opts
  {
    forall i | 0 <= i < |opts|
      ensures LabelMatches(opts[i], "")
    {
      assert OccursAt(Lower(opts[i].labelText), Lower(""), 0);
    }
    FilterAllMatch(opts, "");
  }

  /** `options`: the search results while a server search is configured and
      the search box is non-empty, otherwise the options given. */
  function OptionSource(initial: seq<SelectOption>, results: seq<SelectOption>, hasOnSearch: bool,
                        search: string): (r: seq<SelectOption>)
    ensures hasOnSearch && search != "" ==> r == results
    ensures !hasOnSearch || search == "" ==> r == initial
  {
    if hasOnSearch && search != "" then results else initial
  }

  /** `filteredOptions`: a server search lists its source unfiltered; without
      one the given options are filtered by label. */
  function FilteredOptions(initial: seq<SelectOption>, results: seq<SelectOption>, hasOnSearch: bool,
                           search: string): (r: seq<SelectOption>)
    ensures hasOnSearch ==> r == OptionSource(initial, results, hasOnSearch, search)
    ensures !hasOnSearch ==> r == FilterByLabel(initial, search)
    ensures !hasOnSearch ==> forall o :: o in r <==> o in initial && LabelMatches(o, search)
    ensures !hasOnSearch && search == "" ==> r == initial
  {
    var options := OptionSource(initial, results, hasOnSearch, search);
    if hasOnSearch then options
    else
      EmptySearchKeepsAll(options);
      FilterByLabel(options, search)
  }

  /** What the search callback did: answer with options, or throw. */
  datatype SearchOutcome = Answered(options: seq<SelectOption>) | Failed

  class SearchableSelect {
    const initialOptions: seq<SelectOption>
    const hasOnSearch: bool
    /** The `value` prop the parent passes in. */
    const value: string

    var isOpen: bool
    var search: string
    var highlightedIndex: int
    var isSearching: bool
    var searchResults: seq<SelectOption>
    /** Every `onChange` call, in order. */
    var changes: seq<string>

    constructor(initialOptions: seq<SelectOption>, hasOnSearch: bool, value: string)
      ensures this.initialOptions == initialOptions && this.hasOnSearch == hasOnSearch && this.value == value
      ensures !isOpen && search == "" && highlightedIndex == -1 && !isSearching
      ensures searchResults == [] && changes == []
    {
      this.initialOptions := initialOptions;
      this.hasOnSearch := hasOnSearch;
      this.value := value;
      isOpen := false;
      search := "";
      highlightedIndex := -1;
      isSearching := false;
      searchResults := [];
      changes := [];
    }

    function Filtered(): seq<SelectOption>
      reads this
    {
      FilteredOptions(initialOptions, searchResults, hasOnSearch, search)
    }

    function Selected(): Option<SelectOption>
      reads this
    {
      SelectedOption(initialOptions, searchResults, value)
    }

    /** The highlight names a listed option or nothing (-1). */
    predicate HighlightInRange()
      reads this
    {
      highlightedIndex == -1 || 0 <= highlightedIndex < |Filtered()|
    }

    /** `setSearch(s)` together with the effect on `[search]` that clears
        the highlight whenever the search value changes. */
    method SetSearch(s: string)
      modifies this
      ensures search == s
      ensures highlightedIndex == if s == old(search) then old(highlightedIndex) else -1
      ensures isOpen == old(isOpen) && isSearching == old(isSearching)
      ensures searchResults == old(searchResults) && changes == old(changes)
    {
      if s != search {
        highlightedIndex := -1;
      }
      search := s;
    }

    /** `handleSelect(optionValue)` */
    method HandleSelect(optionValue: string)
      modifies this
      ensures changes == old(changes) + [optionValue]
      ensures !isOpen && search == "" && searchResults == []
      ensures highlightedIndex == if old(search) == "" then old(highlightedIndex) else -1
      ensures isSearching == old(isSearching)
    {
      changes := changes + [optionValue];
      isOpen := false;
      SetSearch("");
      searchResults := [];
    }

    /** The document's `mousedown` listener, for a click outside. */
    method HandleClickOutside()
      modifies this
      ensures !isOpen && search == "" && searchResults == []
      ensures highlightedIndex == if old(search) == "" then old(highlightedIndex) else -1
      ensures isSearching == old(isSearching) && changes == old(changes)
    {
      isOpen := false;
      SetSearch("");
      searchResults := [];
    }

    /** A click on the trigger. */
    method ToggleOpen()
      modifies this
      ensures isOpen == !old(isOpen)
      ensures search == old(search) && highlightedIndex == old(highlightedIndex)
      ensures isSearching == old(isSearching) && searchResults == old(searchResults) && changes == old(changes)
    {
      isOpen := !isOpen;
    }

    /** `handleKeyDown(e)`; the options listed are those of the state the
        key was pressed in. */
    method HandleKeyDown(key: string)
      modifies this
      ensures isSearching == old(isSearching)
      ensures !old(isOpen) ==>
        && isOpen == (key == "Enter" || key == " " || key == "ArrowDown")
        && search == old(search) && highlightedIndex == old(highlightedIndex)
        && searchResults == old(searchResults) && changes == old(changes)
      ensures old(isOpen) && key == "Escape" ==>
        && !isOpen && search == "" && searchResults == [] && changes == old(changes)
        && highlightedIndex == (if old(search) == "" then old(highlightedIndex) else -1)
      ensures old(isOpen) && key == "ArrowDown" ==>
        && isOpen && search == old(search) && searchResults == old(searchResults) && changes == old(changes)
        && highlightedIndex == (if old(highlightedIndex) < |old(Filtered())| - 1
                                then old(highlightedIndex) + 1 else old(highlightedIndex))
      ensures old(isOpen) && key == "ArrowUp" ==>
        && isOpen && search == old(search) && searchResults == old(searchResults) && changes == old(changes)
        && highlightedIndex == (if old(highlightedIndex) > 0 then old(highlightedIndex) - 1 else -1)
      ensures old(isOpen) && key == "Enter" && 0 <= old(highlightedIndex) < |old(Filtered())| ==>
        && changes == old(changes) + [old(Filtered())[old(highlightedIndex)].value]
        && !isOpen && search == "" && searchResults == []
        && highlightedIndex == (if old(search) == "" then old(highlightedIndex) else -1)
      ensures old(isOpen) && key == "Enter" && !(0 <= old(highlightedIndex) < |old(Filtered())|) ==>
        && changes == old(changes) && isOpen && search == old(search)
        && searchResults == old(searchResults) && highlightedIndex == old(highlightedIndex)
      ensures old(isOpen) && key != "Escape" && key != "ArrowDown" && key != "ArrowUp" && key != "Enter" ==>
        && isOpen && search == old(search) && highlightedIndex == old(highlightedIndex)
        && searchResults == old(searchResults) && changes == old(changes)
      ensures old(isOpen) && (key == "ArrowDown" || key == "ArrowUp") && old(HighlightInRange()) ==>
        HighlightInRange()
    {
      if !isOpen {
        if key == "Enter" || key == " " || key == "ArrowDown" {
          isOpen := true;
        }
        return;
      }
      var filteredOptions := Filtered();
      if key == "Escape" {
        isOpen := false;
        SetSearch("");
        searchResults := [];
      } else if key == "ArrowDown" {
        highlightedIndex := if highlightedIndex < |filteredOptions| - 1 then highlightedIndex + 1 else highlightedIndex;
      } else if key == "ArrowUp" {
        highlightedIndex := if highlightedIndex > 0 then highlightedIndex - 1 else -1;
      } else if key == "Enter" {
        if highlightedIndex >= 0 && highlightedIndex < |filteredOptions| {
          HandleSelect(filteredOptions[highlightedIndex].value);
        }
      }
    }

    /** `performSearch(searchTerm)` run to completion: `called` says whether
        the search callback was invoked; a blank term clears the results
        without calling it, and a thrown error leaves the results empty. */
    method PerformSearch(searchTerm: string, outcome: SearchOutcome) returns (called: bool)
      modifies this
      ensures called <==> hasOnSearch && Trim(searchTerm) != ""
      ensures !hasOnSearch ==> searchResults == old(searchResults) && isSearching == old(isSearching)
      ensures hasOnSearch ==> !isSearching
      ensures hasOnSearch && Trim(searchTerm) == "" ==> searchResults == []
      ensures called ==> searchResults == (if outcome.Answered? then outcome.options else [])
      ensures isOpen == old(isOpen) && search == old(search) && highlightedIndex == old(highlightedIndex)
      ensures changes == old(changes)
    {
      if !hasOnSearch {
        return false;
      }
      if Trim(searchTerm) == "" {
        searchResults := [];
        isSearching := false;
        return false;
      }
      isSearching := true;
      match outcome {
        case Answered(options) => searchResults := options;
        case Failed => searchResults := [];
      }
      isSearching := false;
      return true;
    }
  }

  /** In a component without a server search, filtering never lists an
      option the given options do not have, and every listed option's label
      contains the search text, ignoring case. */
  lemma LocalFilterSound(initial: seq<SelectOption>, results: seq<SelectOption>, search: string)
    ensures var r := FilteredOptions(initial, results, false, search);
      forall i :: 0 <= i < |r| ==> r[i] in initial && Contains(Lower(r[i].labelText), Lower(search))
  {
    var r := FilteredOptions(initial, results, false, search);
    forall i | 0 <= i < |r|
      ensures r[i] in initial && Contains(Lower(r[i].labelText), Lower(search))
    {
      assert r[i] in r;
    }
  }
}
