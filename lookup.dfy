// The typeahead selection engine of the lookup component: search text,
// debounced search, result menu with a highlighted item, and single or
// multiple selection with change notifications.
//
// The component is a class whose fields change in place. Its state is read
// through two snapshots, `Selection` (text, selected items, emitted events)
// and `Menu` (timer, open flag, highlight, results, dropdown calls); each
// method's contract gives the new snapshot as a function of the old one,
// and the lemmas state what those functions guarantee.

module Lookup {
  import opened Text
  import opened Seqs
  import opened Candidates
  import opened Filter

  // Key codes (KeyboardEvent.which) the component reacts to.
  const BACKSPACE_KEY := 8
  const ENTER_KEY := 13
  const ESCAPE_KEY := 27
  const UP_KEY := 38
  const DOWN_KEY := 40

  /** One `selectionChange` event: what was added, what was removed, and the
      whole selection after the change. */
  datatype SelectionChange = SelectionChange(added: seq<Candidate>, removed: seq<Candidate>, result: seq<Candidate>)

  /** A call to the dropdown adapter. */
  datatype DropdownCall = Show | Hide

  /** What resolvePartialSearch does with the text typed so far. */
  datatype Resolution = Clear | Keep | Commit(item: Candidate)

  /** The selection side of the component: the search text, the selected
      items and every `selectionChange` event emitted so far. */
  datatype Selection = Selection(text: string, items: seq<Candidate>, events: seq<SelectionChange>)

  /** The menu side of the component: whether a search timer is armed,
      whether the dropdown is open, the highlighted result, the results, and
      every call made to the dropdown adapter so far. */
  datatype Menu = Menu(pending: bool, open: bool, active: Candidate?, results: seq<Candidate>, calls: seq<DropdownCall>)

  // ---- Read-only helpers that need no configuration --------------------------

  /** `!searchText || searchText.match(/^\s+$/)`: the text is empty or
      whitespace only. */
  function IsSearchTextEmpty(text: string): bool
  {
    IsBlank(text)
  }

  /** The text counts as empty exactly when trimming leaves nothing. */
  lemma SearchTextEmptyTrimsToNothing(text: string)
    ensures IsSearchTextEmpty(text) <==> Trim(text) == ""
  {
    TrimProperties(text);
  }

  /** The item is selected, by identity. */
  function IsItemSelected(items: seq<Candidate>, item: Candidate): (r: bool)
    ensures r <==> item in items
  {
    FindIndex(items, item) > -1
  }

  // ---- The menu ---------------------------------------------------------------

  /** The menu invariant: a closed menu highlights nothing, and when there
      are results the highlighted item is one of them. (When a search run
      while the menu is open finds nothing, the previous highlight stays.) */
  predicate MenuValid(m: Menu)
  {
    (!m.open ==> m.active == null) && (m.active != null && m.results != [] ==> m.active in m.results)
  }

  /** openMenu: shows the dropdown unless it is open, then highlights the
      first result, if any. */
  function Opened(m: Menu): Menu
  {
    Menu(m.pending, true, if m.results != [] then m.results[0] else m.active, m.results,
         m.calls + if m.open then [] else [Show])
  }

  /** closeMenu: cancels the timer, hides the dropdown (whose close event
      clears `open`) and drops the highlight. */
  function Closed(m: Menu): Menu
  {
    Menu(false, false, null, m.results, m.calls + [Hide])
  }

  /** Opening always leaves a valid menu, whatever the highlight was: the
      menu is open and highlights its first result when there is one. */
  lemma OpenedValid(m: Menu)
    ensures MenuValid(Opened(m)) && Opened(m).open
    ensures Opened(m).results == m.results && Opened(m).pending == m.pending
    ensures m.results != [] ==> Opened(m).active == m.results[0]
    ensures Opened(m).calls == m.calls + if m.open then [] else [Show]
  {
  }

  /** Closing always leaves a valid, closed menu with no timer, and hides
      the dropdown exactly once. */
  lemma ClosedValid(m: Menu)
    ensures MenuValid(Closed(m)) && !Closed(m).open && !Closed(m).pending && Closed(m).active == null
    ensures Closed(m).results == m.results && Closed(m).calls == m.calls + [Hide]
  {
  }

  /** Where moveActiveMenuItemDown leaves the highlight: on the next result,
      if the menu is open, the highlighted item is among the results and it
      is not the last one; otherwise where it was. */
  function NextActive(open: bool, active: Candidate?, results: seq<Candidate>): (r: Candidate?)
    ensures !open || active == null ==> r == active
    ensures r == active || (r != null && r in results)
    ensures active != null && active in results ==> r != null && r in results
  {
    if open && active != null then
      var index := FindIndex(results, active);
      if index > -1 && |results| > index + 1 then results[index + 1] else active
    else active
  }

  /** Where moveActiveMenuItemUp leaves the highlight: on the previous result,
      if the menu is open, the highlighted item is among the results and it
      is not the first one; otherwise where it was. */
  function PreviousActive(open: bool, active: Candidate?, results: seq<Candidate>): (r: Candidate?)
    ensures !open || active == null ==> r == active
    ensures r == active || (r != null && r in results)
    ensures active != null && active in results ==> r != null && r in results
  {
    if open && active != null then
      var index := FindIndex(results, active);
      if index > 0 then results[index - 1] else active
    else active
  }

  /** Navigation moves by one position and stops at both ends, never wrapping
      around: from result `i` down goes to `i + 1` unless `i` is last, and up
      goes to `i - 1` unless `i` is first. */
  lemma NavigationByIndex(results: seq<Candidate>, i: nat)
    requires NoDuplicates(results) && i < |results|
    ensures NextActive(true, results[i], results) == results[if i + 1 < |results| then i + 1 else i]
    ensures PreviousActive(true, results[i], results) == results[if i > 0 then i - 1 else 0]
  {
    FindIndexOfDistinct(results, i);
  }

  /** Up undoes down and down undoes up, away from the ends of the results. */
  lemma NavigationRoundTrip(results: seq<Candidate>, i: nat)
    requires NoDuplicates(results) && i < |results|
    ensures i + 1 < |results| ==> PreviousActive(true, NextActive(true, results[i], results), results) == results[i]
    ensures i > 0 ==> NextActive(true, PreviousActive(true, results[i], results), results) == results[i]
  {
    NavigationByIndex(results, i);
    if i + 1 < |results| { NavigationByIndex(results, i + 1); }
    if i > 0 { NavigationByIndex(results, i - 1); }
  }

  /** With a candidate repeated in the results, `findIndex` locates its first
      copy: Down from the later copy of `a` in `[a, b, a]` moves back to `b`,
      and Up from it stays on `a`. */
  lemma NavigationWithRepeatedItem(a: Candidate, b: Candidate)
    requires a != b
    ensures NextActive(true, a, [a, b, a]) == b
    ensures PreviousActive(true, a, [a, b, a]) == a
  {
    assert FindIndex([a, b, a], a) == 0;
  }

  /** Moving the highlight keeps the menu invariant and stays within the
      results. */
  lemma NavigationValid(m: Menu)
    requires MenuValid(m)
    ensures MenuValid(m.(active := NextActive(m.open, m.active, m.results)))
    ensures MenuValid(m.(active := PreviousActive(m.open, m.active, m.results)))
  {
  }

  class LookupComponent {
    // Inputs, fixed for the life of the component.
    const multiple: bool
    const data: seq<Candidate>
    const minChars: int
    const propertiesToSearch: seq<string>
    const descriptorProperty: string
    /** 0 stands for an unset limit. */
    const resultsLimit: int

    var searchText: string
    var searchInputFocused: bool
    var activeMenuItem: Candidate?
    var open: bool
    /** A search timer is armed (`_currentWait` holds a handle). */
    var pendingSearch: bool
    var results: seq<Candidate>
    var selectedItems: seq<Candidate>

    /** Every `selectionChange` event emitted so far. */
    ghost var notifications: seq<SelectionChange>
    /** Every call made to the dropdown adapter so far. */
    ghost var dropdownCalls: seq<DropdownCall>

    /** The selection side of the current state. */
    ghost function SelectionState(): Selection
      reads this`searchText, this`selectedItems, this`notifications
    {
      Selection(searchText, selectedItems, notifications)
    }

    /** The menu side of the current state. */
    ghost function MenuState(): Menu
      reads this`pendingSearch, this`open, this`activeMenuItem, this`results, this`dropdownCalls
    {
      Menu(pendingSearch, open, activeMenuItem, results, dropdownCalls)
    }

    ghost predicate Valid()
      reads this`pendingSearch, this`open, this`activeMenuItem, this`results, this`dropdownCalls
    {
      MenuValid(MenuState())
    }

    /** The selection invariant: at most one item in single mode, no item
        twice in multiple mode. */
    predicate SelectionOk(items: seq<Candidate>)
    {
      if multiple then NoDuplicates(items) else |items| <= 1
    }

    constructor (multiple: bool, data: seq<Candidate>, selectedItems: seq<Candidate>, minChars: int,
                 propertiesToSearch: seq<string>, descriptorProperty: string, resultsLimit: int)
      ensures Valid()
      ensures this.multiple == multiple && this.data == data && this.minChars == minChars
      ensures this.propertiesToSearch == propertiesToSearch && this.descriptorProperty == descriptorProperty
      ensures this.resultsLimit == resultsLimit && !searchInputFocused
      ensures SelectionState() == Selection("", selectedItems, [])
      ensures MenuState() == Menu(false, false, null, [], [])
    {
      this.multiple := multiple;
      this.data := data;
      this.selectedItems := selectedItems;
      this.minChars := minChars;
      this.propertiesToSearch := propertiesToSearch;
      this.descriptorProperty := descriptorProperty;
      this.resultsLimit := resultsLimit;
      searchText := "";
      searchInputFocused := false;
      activeMenuItem := null;
      open := false;
      pendingSearch := false;
      results := [];
      notifications := [];
      dropdownCalls := [];
    }

    // ---- Read-only helpers --------------------------------------------------

    /** In single mode, the trimmed search text is the selected item's
        descriptor. Only an item whose descriptor has no surrounding
        whitespace can match. */
    function IsSearchTextMatchingSelectedItem(text: string, items: seq<Candidate>): bool
    {
      !multiple && |items| > 0 && descriptorProperty in items[0].properties
        && items[0].properties[descriptorProperty] == Trim(text)
    }

    /** A match means single mode with some selection whose descriptor is the
        trimmed text; so only a descriptor without surrounding whitespace can
        match, and the text's own surrounding whitespace is ignored. */
    lemma MatchingSelectedItemIsDescriptor(text: string, items: seq<Candidate>)
      ensures IsSearchTextMatchingSelectedItem(text, items) ==>
                !multiple && items != [] && Property(items[0], descriptorProperty) == Trim(text)
                && Trim(Property(items[0], descriptorProperty)) == Property(items[0], descriptorProperty)
      ensures IsSearchTextMatchingSelectedItem(text, items) <==> IsSearchTextMatchingSelectedItem(Trim(text), items)
    {
      TrimIdempotent(text);
    }

    /** Some property in `propertiesToSearch`, lower-cased, contains
        `searchTextLower`; the properties are tried from last to first. */
    method IsSearchMatch(item: Candidate, searchTextLower: string) returns (r: bool)
      ensures r <==> SearchMatch(item, propertiesToSearch, searchTextLower)
    {
      var n := |propertiesToSearch|;
      while n > 0
        invariant 0 <= n <= |propertiesToSearch|
        invariant forall k :: n <= k < |propertiesToSearch| ==>
                    !Contains(Lower(Property(item, propertiesToSearch[k])), searchTextLower)
      {
        n := n - 1;
        if Contains(Lower(Property(item, propertiesToSearch[n])), searchTextLower) {
          return true;
        }
      }
      return false;
    }

    /** The results a search for `text` shows while `items` are selected. */
    function SearchFor(text: string, items: seq<Candidate>): seq<Candidate>
    {
      SearchResults(Criteria(multiple, items, propertiesToSearch, Lower(text)), data, resultsLimit)
    }

    /** The results do not depend on the ASCII case of the search text:
        searching for its lower-cased form finds the same candidates. */
    lemma SearchIgnoresQueryCase(text: string, items: seq<Candidate>)
      ensures SearchFor(Lower(text), items) == SearchFor(text, items)
    {
      LowerIdempotent(text);
    }

    /** When `data` holds no candidate twice, neither do the results, so the
        navigation lemmas apply to the menu the component shows. */
    lemma SearchForDistinct(text: string, items: seq<Candidate>)
      requires NoDuplicates(data)
      ensures NoDuplicates(SearchFor(text, items))
    {
      SearchResultsDistinct(Criteria(multiple, items, propertiesToSearch, Lower(text)), data, resultsLimit);
    }

    /** performSearch opens the menu: the text is non-empty, at least
        `minChars` long and not already the single selection's descriptor. */
    predicate ShouldOpenMenu(text: string, items: seq<Candidate>)
    {
      text != "" && |text| >= minChars && !IsSearchTextMatchingSelectedItem(text, items)
    }

    // ---- The selection, as functions of the state before -------------------

    /** selectItem. Multiple mode: the item is appended and announced unless
        already selected, and the text cleared. Single mode: it replaces the
        whole selection, which is always announced, and the text becomes its
        descriptor. */
    function Committed(s: Selection, item: Candidate): Selection
    {
      if multiple then
        if item in s.items then s.(text := "")
        else Selection("", s.items + [item], s.events + [SelectionChange([item], [], s.items + [item])])
      else
        Selection(Property(item, descriptorProperty), [item], s.events + [SelectionChange([item], s.items, [item])])
    }

    /** removeSelectedItem: the first occurrence of the item is spliced out
        and announced; an item not selected changes nothing. */
    function Removed(s: Selection, item: Candidate): Selection
    {
      var index := FindIndex(s.items, item);
      if index > -1 then
        var rest := RemoveAt(s.items, index);
        s.(items := rest, events := s.events + [SelectionChange([], [item], rest)])
      else s
    }

    /** Backspace: in multiple mode with a blank text, the last selected item
        is removed and announced; otherwise nothing changes. */
    function Popped(s: Selection): Selection
    {
      if multiple && IsSearchTextEmpty(s.text) && |s.items| > 0 then
        var rest := s.items[..|s.items| - 1];
        s.(items := rest, events := s.events + [SelectionChange([], [s.items[|s.items| - 1]], rest)])
      else s
    }

    /** clearSearchText: the text is emptied; in single mode so is the
        selection, announced even when it was already empty. */
    function Cleared(s: Selection): Selection
    {
      if multiple then s.(text := "")
      else Selection("", [], s.events + [SelectionChange([], s.items, [])])
    }

    /** revertSelection: the text becomes the single selection's descriptor,
        or empty. */
    function Reverted(s: Selection): Selection
    {
      s.(text := if !multiple && s.items != [] then Property(s.items[0], descriptorProperty) else "")
    }

    /** What resolvePartialSearch does: clear a blank text; keep a text that
        already names the single selection; otherwise commit the highlighted
        item, or else the first result of a fresh search, or else clear. */
    function Plan(s: Selection, active: Candidate?): Resolution
    {
      if IsSearchTextEmpty(s.text) then Clear
      else if !multiple && IsSearchTextMatchingSelectedItem(s.text, s.items) then Keep
      else if active != null then Commit(active)
      else
        var found := SearchFor(s.text, s.items);
        if found != [] then Commit(found[0]) else Clear
    }

    /** resolvePartialSearch runs a fresh search: the text is not blank, does
        not name the single selection, and nothing is highlighted. */
    predicate ResolutionSearches(s: Selection, active: Candidate?)
    {
      !IsSearchTextEmpty(s.text) && (multiple || !IsSearchTextMatchingSelectedItem(s.text, s.items)) && active == null
    }

    /** The selection after resolvePartialSearch. */
    function Resolved(s: Selection, active: Candidate?): Selection
    {
      match Plan(s, active)
      case Clear => Cleared(s)
      case Keep => s
      case Commit(item) => Committed(s, item)
    }

    /** The input shows nothing, or (in single mode) the text of the selected
        item: never typed text that no selection stands for. */
    predicate Settled(s: Selection)
    {
      s.text == "" ||
      (!multiple && s.items != [] && Trim(s.text) == Trim(Property(s.items[0], descriptorProperty)))
    }

    // ---- The menu, as functions of the state before ------------------------

    /** performSearch: no timer is left; when the text calls for it, fresh
        results and an open menu, otherwise a closed menu. */
    function Searched(m: Menu, text: string, items: seq<Candidate>): Menu
    {
      if ShouldOpenMenu(text, items) then Opened(m.(pending := false, results := SearchFor(text, items)))
      else Closed(m)
    }

    /** The menu after resolvePartialSearch: fresh results when it searches,
        and closed when it commits an item. */
    function MenuResolved(m: Menu, s: Selection): Menu
    {
      var m' := if ResolutionSearches(s, m.active) then m.(results := SearchFor(s.text, s.items)) else m;
      if Plan(s, m.active).Commit? then Closed(m') else m'
    }

    // ---- Properties of the selection functions -------------------------------

    /** Committing keeps the selection invariant and leaves the item
        selected. In multiple mode the selection grows by exactly that item
        (if new) and the text is emptied; in single mode the item is the whole
        selection and the text is its descriptor. */
    lemma CommitSelects(s: Selection, item: Candidate)
      ensures SelectionOk(s.items) ==> SelectionOk(Committed(s, item).items)
      ensures item in Committed(s, item).items
      ensures multiple ==> Committed(s, item).text == ""
                           && forall x :: x in Committed(s, item).items <==> x in s.items || x == item
      ensures multiple ==> s.items <= Committed(s, item).items
      ensures !multiple ==> Committed(s, item).items == [item]
                            && Committed(s, item).text == Property(item, descriptorProperty)
    {
      if multiple && item !in s.items && NoDuplicates(s.items) {
        AppendNoDuplicates(s.items, item);
      }
    }

    /** A commit is announced exactly when it changes the selection, except
        that single mode always announces; the event carries the whole new
        selection. */
    lemma CommitAnnounces(s: Selection, item: Candidate)
      ensures Committed(s, item).events == s.events <==> multiple && item in s.items
      ensures !(multiple && item in s.items) ==>
                Committed(s, item).events == s.events + [SelectionChange([item], if multiple then [] else s.items, Committed(s, item).items)]
    {
      if !(multiple && item in s.items) {
        assert |Committed(s, item).events| == |s.events| + 1;
      }
    }

    /** In multiple mode committing the same item twice is committing it
        once. */
    lemma CommitIdempotent(s: Selection, item: Candidate)
      requires multiple
      ensures Committed(Committed(s, item), item) == Committed(s, item)
    {
      CommitSelects(s, item);
    }

    /** Removing an item keeps the selection invariant, and the item is no
        longer selected afterwards. */
    lemma RemoveDeselects(s: Selection, item: Candidate)
      requires SelectionOk(s.items)
      ensures SelectionOk(Removed(s, item).items) && item !in Removed(s, item).items
    {
      var index := FindIndex(s.items, item);
      if index > -1 {
        var rest := RemoveAt(s.items, index);
        if multiple {
          RemoveAtNoDuplicates(s.items, index);
          forall k | 0 <= k < |rest| ensures rest[k] != item {
            if k < index { assert rest[k] == s.items[k]; }
            else { assert rest[k] == s.items[k + 1]; }
          }
        } else {
          assert |rest| == 0;
        }
      }
    }

    /** A selected item leaves the selection, which shrinks by exactly that
        one occurrence, and the removal is announced with the new selection;
        an item not selected changes nothing. */
    lemma RemoveShrinks(s: Selection, item: Candidate)
      ensures item in s.items ==>
                |Removed(s, item).items| == |s.items| - 1
                && multiset(Removed(s, item).items) == multiset(s.items) - multiset{item}
                && Removed(s, item).text == s.text
                && Removed(s, item).events == s.events + [SelectionChange([], [item], Removed(s, item).items)]
      ensures item !in s.items ==> Removed(s, item) == s
    {
    }

    /** Removing an item just committed in multiple mode restores the
        selection as it was. */
    lemma RemoveUndoesCommit(s: Selection, item: Candidate)
      requires multiple && item !in s.items
      ensures Removed(Committed(s, item), item).items == s.items
    {
      var after := s.items + [item];
      assert FindIndex(after, item) == |s.items| by {
        assert item !in after[..|s.items|] by { assert after[..|s.items|] == s.items; }
      }
      assert RemoveAt(after, |s.items|) == s.items;
    }

    /** Backspace keeps the selection invariant and the text; in multiple
        mode with a blank text and some selection, it removes exactly the last
        item and announces it; otherwise nothing changes. */
    lemma PopRemovesLast(s: Selection)
      ensures SelectionOk(s.items) ==> SelectionOk(Popped(s).items)
      ensures Popped(s).text == s.text
      ensures multiple && Trim(s.text) == "" && s.items != [] ==>
                Popped(s).items + [s.items[|s.items| - 1]] == s.items
                && Popped(s).events == s.events + [SelectionChange([], [s.items[|s.items| - 1]], Popped(s).items)]
      ensures !(multiple && Trim(s.text) == "" && s.items != []) ==> Popped(s) == s
    {
      SearchTextEmptyTrimsToNothing(s.text);
      if multiple && IsSearchTextEmpty(s.text) && |s.items| > 0 {
        var rest := s.items[..|s.items| - 1];
        assert rest + [s.items[|s.items| - 1]] == s.items;
        if NoDuplicates(s.items) { RemoveAtNoDuplicates(s.items, |s.items| - 1); }
      }
    }

    /** Backspace right after committing a new item in multiple mode takes
        that item back out. */
    lemma PopUndoesCommit(s: Selection, item: Candidate)
      requires multiple && item !in s.items
      ensures Popped(Committed(s, item)).items == s.items
    {
      assert (s.items + [item])[..|s.items|] == s.items;
    }

    /** Clearing settles the input and keeps the selection invariant. In
        multiple mode the selection stays and nothing is announced; in single
        mode the selection is emptied and that is always announced. */
    lemma ClearSettles(s: Selection)
      ensures Settled(Cleared(s)) && Cleared(s).text == ""
      ensures SelectionOk(s.items) ==> SelectionOk(Cleared(s).items)
      ensures multiple ==> Cleared(s).items == s.items && Cleared(s).events == s.events
      ensures !multiple ==> Cleared(s).items == [] && Cleared(s).events == s.events + [SelectionChange([], s.items, [])]
    {
    }

    /** Reverting settles the input; right after a single-mode commit it
        changes nothing. */
    lemma RevertSettles(s: Selection, item: Candidate)
      ensures Settled(Reverted(s))
      ensures Reverted(s).items == s.items && Reverted(s).events == s.events
      ensures !multiple ==> Reverted(Committed(s, item)) == Committed(s, item)
    {
    }

    /** Whatever resolvePartialSearch does, it leaves the input settled and
        keeps the selection invariant. */
    lemma ResolveSettles(s: Selection, active: Candidate?)
      ensures Settled(Resolved(s, active))
      ensures SelectionOk(s.items) ==> SelectionOk(Resolved(s, active).items)
    {
      match Plan(s, active)
      case Clear =>
        ClearSettles(s);
      case Keep =>
        MatchingSelectedItemIsDescriptor(s.text, s.items);
      case Commit(item) =>
        CommitSelects(s, item);
        TrimIdempotent(Property(item, descriptorProperty));
    }

    /** Without a highlight, resolvePartialSearch commits the first result of
        a fresh search, which is a candidate of `data` matching the text; it
        clears only when the text is blank or that search finds nothing. */
    lemma ResolvePicksFirstResult(s: Selection)
      ensures Plan(s, null).Commit? ==>
                SearchFor(s.text, s.items) != [] && Plan(s, null).item == SearchFor(s.text, s.items)[0]
                && Plan(s, null).item in data
                && SearchMatch(Plan(s, null).item, propertiesToSearch, Lower(s.text))
      ensures Plan(s, null) == Clear <==>
                Trim(s.text) == "" || (ResolutionSearches(s, null) && SearchFor(s.text, s.items) == [])
    {
      SearchTextEmptyTrimsToNothing(s.text);
      var c := Criteria(multiple, s.items, propertiesToSearch, Lower(s.text));
      SearchResultsProperties(c, data, resultsLimit);
      SubsequenceMembers(SearchResults(c, data, resultsLimit), data);
    }

    // ---- Properties of the menu functions ------------------------------------

    /** A search keeps the menu invariant and leaves no timer; the menu is
        open exactly when the text calls for it, and then it shows the fresh
        results with the first one highlighted. */
    lemma SearchOpensMenu(m: Menu, text: string, items: seq<Candidate>)
      requires MenuValid(m)
      ensures MenuValid(Searched(m, text, items)) && !Searched(m, text, items).pending
      ensures Searched(m, text, items).open <==> ShouldOpenMenu(text, items)
      ensures |text| < minChars ==> !Searched(m, text, items).open
      ensures ShouldOpenMenu(text, items) ==>
                Searched(m, text, items).results == SearchFor(text, items)
                && (SearchFor(text, items) != [] ==> Searched(m, text, items).active == SearchFor(text, items)[0])
      ensures !ShouldOpenMenu(text, items) ==> Searched(m, text, items) == Closed(m)
    {
      if ShouldOpenMenu(text, items) {
        OpenedValid(m.(pending := false, results := SearchFor(text, items)));
      }
    }

    /** resolvePartialSearch keeps the menu invariant; it closes the menu
        exactly when it commits an item, and otherwise leaves the timer, the
        open flag, the highlight and the dropdown alone. */
    lemma ResolveKeepsMenu(m: Menu, s: Selection)
      requires MenuValid(m)
      ensures MenuValid(MenuResolved(m, s))
      ensures Plan(s, m.active).Commit? ==> MenuResolved(m, s) == Closed(MenuResolved(m, s).(calls := m.calls))
      ensures !Plan(s, m.active).Commit? ==>
                MenuResolved(m, s).(results := m.results) == m
    {
    }

    // ---- Events and the search timer ------------------------------------------

    /** Emits a `selectionChange` event carrying the current selection. */
    method NotifySelectionChange(added: seq<Candidate>, removed: seq<Candidate>)
      modifies this`notifications
      ensures notifications == old(notifications) + [SelectionChange(added, removed, selectedItems)]
    {
      notifications := notifications + [SelectionChange(added, removed, selectedItems)];
    }

    /** Cancels the search timer, if one is armed. */
    method ClearQueuedSearch()
      modifies this`pendingSearch
      ensures !pendingSearch
    {
      if pendingSearch {
        pendingSearch := false;
      }
    }

    /** Arms a fresh search timer in place of any earlier one. */
    method QueueSearch()
      modifies this`pendingSearch
      ensures pendingSearch
    {
      ClearQueuedSearch();
      pendingSearch := true;
    }

    /** The armed search timer elapses and runs performSearch; a cancelled
        timer never fires. */
    method SearchTimerFires()
      requires Valid()
      modifies this`pendingSearch, this`open, this`activeMenuItem, this`dropdownCalls, this`results
      ensures Valid()
      ensures MenuState() == if old(pendingSearch) then Searched(old(MenuState()), searchText, selectedItems)
                             else old(MenuState())
    {
      if pendingSearch {
        PerformSearch();
      }
    }

    // ---- Menu -----------------------------------------------------------------

    method OpenMenu()
      modifies this`open, this`activeMenuItem, this`dropdownCalls
      ensures Valid()
      ensures MenuState() == Opened(old(MenuState()))
    {
      if !open {
        dropdownCalls := dropdownCalls + [Show];
        open := true;
      }
      if results != [] {
        activeMenuItem := results[0];
      }
    }

    method CloseMenu()
      modifies this`pendingSearch, this`open, this`activeMenuItem, this`dropdownCalls
      ensures Valid()
      ensures MenuState() == Closed(old(MenuState()))
    {
      ClearQueuedSearch();
      dropdownCalls := dropdownCalls + [Hide];
      open := false;
      activeMenuItem := null;
    }

    method MoveActiveMenuItemDown()
      requires Valid()
      modifies this`activeMenuItem
      ensures Valid()
      ensures MenuState() == old(MenuState()).(active := NextActive(open, old(activeMenuItem), results))
    {
      if open && activeMenuItem != null {
        var index := FindIndex(results, activeMenuItem);
        if index > -1 && |results| > index + 1 {
          activeMenuItem := results[index + 1];
        }
      }
    }

    method MoveActiveMenuItemUp()
      requires Valid()
      modifies this`activeMenuItem
      ensures Valid()
      ensures MenuState() == old(MenuState()).(active := PreviousActive(open, old(activeMenuItem), results))
    {
      if open && activeMenuItem != null {
        var index := FindIndex(results, activeMenuItem);
        if index > 0 {
          activeMenuItem := results[index - 1];
        }
      }
    }

    // ---- Searching --------------------------------------------------------------

    /** Recomputes the results: walks `data` in order, keeping the candidates
        that match (and, in multiple mode, are not selected), and stops as soon
        as a set limit is reached. */
    method UpdateSearchResults()
      modifies this`results
      ensures results == SearchFor(searchText, selectedItems)
    {
      var searchTextLower := Lower(searchText);
      ghost var c := Criteria(multiple, selectedItems, propertiesToSearch, searchTextLower);
      results := [];
      var i, n := 0, |data|;
      while i < n
        invariant 0 <= i <= n
        invariant results == Matches(c, data[..i])
        invariant resultsLimit > 0 ==> |results| <= resultsLimit
        invariant resultsLimit < 0 ==> i == 0
      {
        if resultsLimit != 0 && |results| >= resultsLimit {
          SearchResultsStopAtLimit(c, data, resultsLimit, i);
          return;
        }
        var item := data[i];
        if !multiple || !IsItemSelected(selectedItems, item) {
          var isMatch := IsSearchMatch(item, searchTextLower);
          if isMatch {
            results := results + [item];
          }
        }
        assert data[..i + 1][..i] == data[..i];
        i := i + 1;
      }
      SearchResultsStopAtLimit(c, data, resultsLimit, n);
    }

    method PerformSearch()
      requires Valid()
      modifies this`pendingSearch, this`open, this`activeMenuItem, this`dropdownCalls, this`results
      ensures Valid()
      ensures MenuState() == Searched(old(MenuState()), searchText, selectedItems)
    {
      ClearQueuedSearch();
      if searchText != "" && |searchText| >= minChars && !IsSearchTextMatchingSelectedItem(searchText, selectedItems) {
        UpdateSearchResults();
        OpenMenu();
      } else {
        CloseMenu();
      }
    }

    // ---- Selection ------------------------------------------------------------

    method SelectItem(item: Candidate)
      modifies this`selectedItems, this`notifications, this`searchText,
               this`pendingSearch, this`open, this`activeMenuItem, this`dropdownCalls
      ensures Valid()
      ensures SelectionState() == Committed(old(SelectionState()), item)
      ensures MenuState() == Closed(old(MenuState()))
    {
      ghost var before := SelectionState();
      if multiple {
        if !IsItemSelected(selectedItems, item) {
          selectedItems := selectedItems + [item];
          NotifySelectionChange([item], []);
        }
        searchText := "";
      } else {
        var removedItems := selectedItems;
        selectedItems := [];
        selectedItems := selectedItems + [item];
        assert selectedItems == [item];
        NotifySelectionChange([item], removedItems);
        searchText := Property(item, descriptorProperty);
      }
      assert SelectionState() == Committed(before, item);
      CloseMenu();
    }

    method RemoveSelectedItem(item: Candidate)
      modifies this`selectedItems, this`notifications
      ensures SelectionState() == Removed(old(SelectionState()), item)
    {
      var index := FindIndex(selectedItems, item);
      if index > -1 {
        var removedItems := [selectedItems[index]];
        selectedItems := RemoveAt(selectedItems, index);
        NotifySelectionChange([], removedItems);
      }
    }

    method ClearSearchText()
      modifies this`searchText, this`selectedItems, this`notifications
      ensures SelectionState() == Cleared(old(SelectionState()))
    {
      searchText := "";
      if !multiple {
        var removedItems := selectedItems;
        selectedItems := [];
        NotifySelectionChange([], removedItems);
      }
    }

    method RevertSelection()
      modifies this`searchText
      ensures SelectionState() == Reverted(old(SelectionState()))
    {
      if !multiple && selectedItems != [] {
        searchText := Property(selectedItems[0], descriptorProperty);
      } else {
        searchText := "";
      }
    }

    /** Settles the input when it loses focus or the page is clicked. */
    method ResolvePartialSearch()
      requires Valid()
      modifies this`searchText, this`selectedItems, this`notifications, this`results,
               this`pendingSearch, this`open, this`activeMenuItem, this`dropdownCalls
      ensures Valid()
      ensures SelectionState() == Resolved(old(SelectionState()), old(activeMenuItem))
      ensures MenuState() == MenuResolved(old(MenuState()), old(SelectionState()))
    {
      ghost var before, menu, active := SelectionState(), MenuState(), activeMenuItem;
      if IsSearchTextEmpty(searchText) {
        assert Plan(before, active) == Clear && !ResolutionSearches(before, active);
        ClearSearchText();
        assert SelectionState() == Cleared(before) == Resolved(before, active);
        assert MenuState() == menu == MenuResolved(menu, before);
      } else if multiple || !IsSearchTextMatchingSelectedItem(searchText, selectedItems) {
        if activeMenuItem != null {
          assert Plan(before, active) == Commit(active) && !ResolutionSearches(before, active);
          SelectItem(activeMenuItem);
          assert SelectionState() == Committed(before, active) == Resolved(before, active);
          assert MenuState() == Closed(menu) == MenuResolved(menu, before);
        } else {
          assert ResolutionSearches(before, null);
          UpdateSearchResults();
          ghost var searched := MenuState();
          assert searched == menu.(results := SearchFor(before.text, before.items));
          if |results| > 0 {
            assert Plan(before, null) == Commit(results[0]);
            SelectItem(results[0]);
            assert SelectionState() == Committed(before, searched.results[0]) == Resolved(before, active);
            assert MenuState() == Closed(searched) == MenuResolved(menu, before);
          } else {
            assert Plan(before, null) == Clear;
            ClearSearchText();
            assert SelectionState() == Cleared(before) == Resolved(before, active);
            assert MenuState() == searched == MenuResolved(menu, before);
          }
        }
      } else {
        assert Plan(before, active) == Keep && !ResolutionSearches(before, active);
        assert SelectionState() == before == Resolved(before, active);
        assert MenuState() == menu == MenuResolved(menu, before);
      }
    }

    // ---- Event handlers ---------------------------------------------------------

    /** Focus moves into or out of the input; leaving it settles the text. */
    method InputFocused(isFocused: bool)
      requires Valid()
      modifies this`searchInputFocused, this`searchText, this`selectedItems, this`notifications,
               this`results, this`pendingSearch, this`open, this`activeMenuItem, this`dropdownCalls
      ensures Valid()
      ensures searchInputFocused == isFocused
      ensures SelectionState() == if isFocused then old(SelectionState())
                                  else Resolved(old(SelectionState()), old(activeMenuItem))
      ensures MenuState() == if isFocused then old(MenuState())
                             else MenuResolved(old(MenuState()), old(SelectionState()))
    {
      searchInputFocused := isFocused;
      if !isFocused {
        ResolvePartialSearch();
      }
    }

    /** A click anywhere on the page: settles the text if the input had focus
        or the menu was open, then always closes the menu. */
    method WindowClick()
      requires Valid()
      modifies this`searchText, this`selectedItems, this`notifications, this`results,
               this`pendingSearch, this`open, this`activeMenuItem, this`dropdownCalls
      ensures Valid()
      ensures SelectionState() == if old(searchInputFocused || open) then Resolved(old(SelectionState()), old(activeMenuItem))
                                  else old(SelectionState())
      ensures MenuState() == Closed(if old(searchInputFocused || open) then MenuResolved(old(MenuState()), old(SelectionState()))
                                    else old(MenuState()))
    {
      if searchInputFocused || open {
        ResolvePartialSearch();
      }
      CloseMenu();
    }

    /** Key pressed. Escape reverts the text and closes the menu; Backspace
        removes the last selection (see Popped); Up and Down move the
        highlight. Other keys do nothing here. */
    method Keydown(key: int)
      requires Valid()
      modifies this`searchText, this`selectedItems, this`notifications,
               this`pendingSearch, this`open, this`activeMenuItem, this`dropdownCalls
      ensures Valid()
      ensures SelectionState() == if key == ESCAPE_KEY then Reverted(old(SelectionState()))
                                  else if key == BACKSPACE_KEY then Popped(old(SelectionState()))
                                  else old(SelectionState())
      ensures MenuState() == if key == ESCAPE_KEY then Closed(old(MenuState()))
                             else if key == UP_KEY then old(MenuState()).(active := PreviousActive(open, old(activeMenuItem), results))
                             else if key == DOWN_KEY then old(MenuState()).(active := NextActive(open, old(activeMenuItem), results))
                             else old(MenuState())
    {
      if key == ESCAPE_KEY {
        RevertSelection();
        CloseMenu();
      } else if key == BACKSPACE_KEY {
        if multiple && IsSearchTextEmpty(searchText) && |selectedItems| > 0 {
          var removedItems := [selectedItems[|selectedItems| - 1]];
          selectedItems := selectedItems[..|selectedItems| - 1];
          NotifySelectionChange([], removedItems);
        }
      } else if key == UP_KEY {
        MoveActiveMenuItemUp();
      } else if key == DOWN_KEY {
        MoveActiveMenuItemDown();
      }
    }

    /** Key released, with `text` the input's value. The text is taken over;
        Enter commits the highlighted item or, with none, searches at once;
        any key other than Enter, Escape, Up and Down re-arms the search timer. */
    method Keyup(key: int, text: string)
      requires Valid()
      modifies this`searchText, this`selectedItems, this`notifications, this`results,
               this`pendingSearch, this`open, this`activeMenuItem, this`dropdownCalls
      ensures Valid()
      ensures SelectionState() == if key == ENTER_KEY && old(activeMenuItem) != null
                                  then Committed(old(SelectionState()).(text := text), old(activeMenuItem))
                                  else old(SelectionState()).(text := text)
      ensures MenuState() == if key == ENTER_KEY then
                               if old(activeMenuItem) != null then Closed(old(MenuState()))
                               else Searched(old(MenuState()), text, old(selectedItems))
                             else if key in {ESCAPE_KEY, UP_KEY, DOWN_KEY} then old(MenuState())
                             else old(MenuState()).(pending := true)
    {
      if text != searchText {
        searchText := text;
      }
      if key == ENTER_KEY {
        if activeMenuItem != null {
          SelectItem(activeMenuItem);
        } else {
          PerformSearch();
        }
      } else if key != ESCAPE_KEY && key != UP_KEY && key != DOWN_KEY {
        QueueSearch();
      }
    }

    method SearchTextChanged(text: string)
      modifies this`searchText
      ensures SelectionState() == old(SelectionState()).(text := text)
    {
      searchText := text;
    }

    /** The component is torn down: the menu closes and no search timer is
        left to fire. */
    method Destroy()
      modifies this`pendingSearch, this`open, this`activeMenuItem, this`dropdownCalls
      ensures Valid()
      ensures MenuState() == Closed(old(MenuState()))
    {
      CloseMenu();
    }
  }
}
