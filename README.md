# Lookup: a verified model of the typeahead selection engine

This project models `SkyLookupComponent`, the lookup (typeahead) component of
SKY UX 2. The user types into an input. After a debounce delay the component
searches its `data` for candidates whose `propertiesToSearch` contain the
typed text, ignoring case. It shows the hits in a dropdown menu with one
highlighted item. The user moves the highlight with Up and Down and commits
an item with Enter, a click, or by leaving the input. In *multiple* mode the
selection is a list of distinct items that grows by appending, and Backspace
on an empty input removes the last item. In *single* mode the selection is at
most one item, and the input shows that item's descriptor. Every change to
the selection emits a `selectionChange` event `{added, removed, result}`.

The Dafny project has five modules:

- `Text` (text.dfy): the blank test and `trim` (ECMAScript whitespace),
  ASCII lower-casing and substring search.
- `Seqs` (seqs.dfy): `findIndex` by identity, `splice` of one element,
  duplicate-freedom and order-preserving subsequences.
- `Candidates` (candidates.dfy): a candidate is an object whose identity
  is its reference. It carries a map from property name to string.
- `Filter` (filter.dfy): the search-results function and its properties.
  These are subsequence of `data`, every hit matches, no selected item in
  multiple mode, the limit, and exactly the first qualifying items.
- `Lookup` (lookup.dfy): the component, as a class whose fields change in
  place. The methods carry `modifies` frames. Each method's contract gives
  the new state as a function of the old one, through two snapshots:
  - `Selection`: the text, the selected items and the events emitted;
  - `Menu`: the search timer, the open flag, the highlight, the results,
    and the calls made to the dropdown.

  Lemmas then state what those functions guarantee: the selection invariant,
  the menu invariant, settling of the text, round trips and idempotence.

The source does not pin down three things, and the model settles them as
follows:

- Search timer. The armed timer is the flag `pendingSearch`. The timer
  elapsing is the explicit step `SearchTimerFires`.
- Dropdown adapter. Calls to it are logged as `Show`/`Hide`. Hiding the
  dropdown makes its close event clear `open`, so `CloseMenu` sets
  `open := false`.
- Events. They are logged in a ghost sequence. `result` is the selection
  after the change, because the event carries the live array.

## Model

| member | source | states |
|---|---|---|
| Text.TrimProperties | src/modules/lookup/lookup.component.ts:294-297 | `trim` gives nothing exactly for blank text, leaves no whitespace at either end, and never lengthens the text |
| Text.TrimIdempotent | src/modules/lookup/lookup.component.ts:294-297 | trimming twice is trimming once |
| Text.TrimmedIsFixed | src/modules/lookup/lookup.component.ts:294-297 | text without whitespace at its ends is unchanged by `trim` |
| Text.TrimStartDropsBlankPrefix | src/modules/lookup/lookup.component.ts:294-297 | trimming the start removes a blank prefix only and stops at a non-whitespace character |
| Text.TrimEndDropsBlankSuffix | src/modules/lookup/lookup.component.ts:294-297 | trimming the end removes a blank suffix only and stops at a non-whitespace character |
| Text.LowerIdempotent | src/modules/lookup/lookup.component.ts:262 | `toLowerCase` leaves no upper-case ASCII letter, and lower-casing twice is lower-casing once |
| Text.LowerPreservesContains | src/modules/lookup/lookup.component.ts:287 | an occurrence of the text in a property value is still an occurrence after both are lower-cased |
| Text.ContainsSelf | src/modules/lookup/lookup.component.ts:287 | `indexOf` finds a string in itself and the empty string in anything |
| Seqs.FindIndex | src/modules/lookup/lookup.component.ts:193 | `findIndex` by identity: -1 exactly when absent, otherwise the first position holding the item |
| Seqs.FindIndexOfDistinct | src/modules/lookup/lookup.component.ts:193 | in a duplicate-free list the item at position i is found at i |
| Seqs.RemoveAt | src/modules/lookup/lookup.component.ts:195 | `splice(index, 1)` removes exactly that one element and keeps the others in order |
| Seqs.RemoveAtNoDuplicates | src/modules/lookup/lookup.component.ts:195 | splicing an element out of a duplicate-free list leaves it duplicate-free |
| Seqs.AppendNoDuplicates | src/modules/lookup/lookup.component.ts:177-178 | pushing an absent item onto a duplicate-free list leaves it duplicate-free |
| Seqs.SubsequenceMembers | src/modules/lookup/lookup.component.ts:264-272 | every element of a subsequence is an element of the whole |
| Seqs.SubsequencePrefix | src/modules/lookup/lookup.component.ts:265-266 | a prefix of a subsequence is still a subsequence |
| Seqs.SubsequenceNoDuplicates | src/modules/lookup/lookup.component.ts:264-272 | a subsequence of a duplicate-free list is duplicate-free |
| Candidates.Candidate.constructor | src/modules/lookup/lookup.component.ts:287 | a candidate holds the given property values |
| Filter.Matches | src/modules/lookup/lookup.component.ts:264-273 | the qualifying candidates are never more than the data |
| Filter.SearchResults | src/modules/lookup/lookup.component.ts:261-274 | a positive limit bounds the results; a negative limit gives no results |
| Filter.MatchesAppend | src/modules/lookup/lookup.component.ts:264-273 | filtering distributes over concatenation of the data |
| Filter.MatchesMembership | src/modules/lookup/lookup.component.ts:269-271 | a candidate is kept exactly when it is in the data and qualifies |
| Filter.MatchesSubsequence | src/modules/lookup/lookup.component.ts:264-273 | the qualifying candidates keep their data order |
| Filter.SearchResultsProperties | src/modules/lookup/lookup.component.ts:261-274 | the results are an order-preserving subsequence of the data, each matches the text, none is selected in multiple mode, a set limit bounds them, and with no limit they are exactly the qualifying candidates |
| Filter.SearchResultsComplete | src/modules/lookup/lookup.component.ts:265-266 | a qualifying candidate is missing from the results only when the limit is set and reached |
| Filter.SearchResultsFirstMatches | src/modules/lookup/lookup.component.ts:264-273 | the results are the qualifying candidates of some prefix of the data, so the first ones in data order |
| Filter.SearchResultsStopAtLimit | src/modules/lookup/lookup.component.ts:265-267 | returning early once the limit is reached gives the same results as the full search |
| Filter.SearchResultsDistinct | src/modules/lookup/lookup.component.ts:264-273 | duplicate-free data gives duplicate-free results |
| Filter.ExactOccurrenceMatches | src/modules/lookup/lookup.component.ts:284-292 | a candidate whose searched property contains the typed text, in whatever ASCII case, matches the lower-cased search text |
| Filter.DescriptorSearchFindsItem | src/modules/lookup/lookup.component.ts:284-292 | with no limit, searching for an unselected item's own searched property value finds that item |
| Lookup.SearchTextEmptyTrimsToNothing | src/modules/lookup/lookup.component.ts:276-278 | the text is empty or whitespace exactly when trimming leaves nothing |
| Lookup.IsItemSelected | src/modules/lookup/lookup.component.ts:280-282 | an item is selected exactly when it is in the selection, by identity |
| Lookup.OpenedValid | src/modules/lookup/lookup.component.ts:307-320 | opening leaves a valid, open menu with the first result highlighted, shows the dropdown only if it was closed, and keeps the results and the timer |
| Lookup.ClosedValid | src/modules/lookup/lookup.component.ts:208-212 | closing leaves a valid closed menu with no timer and no highlight, and hides the dropdown once |
| Lookup.NextActive | src/modules/lookup/lookup.component.ts:322-329 | moving down is a no-op unless the menu is open with a highlight; otherwise the highlight stays among the results |
| Lookup.PreviousActive | src/modules/lookup/lookup.component.ts:331-338 | moving up is a no-op unless the menu is open with a highlight; otherwise the highlight stays among the results |
| Lookup.NavigationByIndex | src/modules/lookup/lookup.component.ts:322-338 | on duplicate-free results, down moves from position i to i+1 and up to i-1, and both stop at the ends with no wraparound |
| Lookup.NavigationRoundTrip | src/modules/lookup/lookup.component.ts:322-338 | on duplicate-free results and away from the ends, up undoes down and down undoes up |
| Lookup.NavigationWithRepeatedItem | src/modules/lookup/lookup.component.ts:322-338 | with a candidate repeated in the results, `findIndex` finds its first copy, so down from the later copy moves backwards and up does not move |
| Lookup.NavigationValid | src/modules/lookup/lookup.component.ts:322-338 | moving the highlight keeps the menu invariant |
| Lookup.LookupComponent.constructor | src/modules/lookup/lookup.component.ts:47-106 | the inputs are stored; the text is empty, no event has fired, and the menu is closed with no timer, no highlight and no results |
| Lookup.LookupComponent.MatchingSelectedItemIsDescriptor | src/modules/lookup/lookup.component.ts:294-297 | a match means single mode and a selection whose descriptor is the trimmed text; whitespace around the text never matters |
| Lookup.LookupComponent.IsSearchMatch | src/modules/lookup/lookup.component.ts:284-292 | true exactly when some searched property, lower-cased (a missing one read as empty), contains the lower-cased text |
| Lookup.LookupComponent.CommitSelects | src/modules/lookup/lookup.component.ts:175-189 | selecting keeps the selection invariant and selects the item; multiple mode appends it if new and empties the text; single mode makes it the whole selection and shows its descriptor |
| Lookup.LookupComponent.CommitAnnounces | src/modules/lookup/lookup.component.ts:176-185 | an event is emitted exactly when the selection changes, and always in single mode, carrying `[item]` as added and the previous selection (single) or nothing (multiple) as removed |
| Lookup.LookupComponent.CommitIdempotent | src/modules/lookup/lookup.component.ts:176-181 | in multiple mode selecting an item twice equals selecting it once |
| Lookup.LookupComponent.RemoveDeselects | src/modules/lookup/lookup.component.ts:191-199 | removing keeps the selection invariant and leaves the item unselected |
| Lookup.LookupComponent.RemoveShrinks | src/modules/lookup/lookup.component.ts:191-199 | a selected item is removed once (length drops by one), with the text kept and the removal announced; an unselected item changes nothing |
| Lookup.LookupComponent.RemoveUndoesCommit | src/modules/lookup/lookup.component.ts:175-199 | in multiple mode removing a just-added item restores the selection |
| Lookup.LookupComponent.PopRemovesLast | src/modules/lookup/lookup.component.ts:136-140 | Backspace removes exactly the last item and announces it only in multiple mode with blank text and a selection; otherwise nothing changes |
| Lookup.LookupComponent.PopUndoesCommit | src/modules/lookup/lookup.component.ts:136-140 | Backspace right after adding a new item in multiple mode removes that item |
| Lookup.LookupComponent.ClearSettles | src/modules/lookup/lookup.component.ts:123-129 | clearing empties the text; single mode empties the selection and always announces it; multiple mode keeps it silently |
| Lookup.LookupComponent.RevertSettles | src/modules/lookup/lookup.component.ts:299-305 | reverting shows the single selection's descriptor or nothing, keeps the selection, and after a single-mode selection changes nothing |
| Lookup.LookupComponent.ResolveSettles | src/modules/lookup/lookup.component.ts:228-248 | whatever resolving does, the input is left empty or showing the single selection, and the selection invariant holds |
| Lookup.LookupComponent.ResolvePicksFirstResult | src/modules/lookup/lookup.component.ts:236-246 | with no highlight, resolving commits the first result of a fresh search, a matching candidate of the data; it clears exactly for blank text or an empty search |
| Lookup.LookupComponent.SearchIgnoresQueryCase | src/modules/lookup/lookup.component.ts:262 | the results for a search text and for its lower-cased form are the same |
| Lookup.LookupComponent.SearchForDistinct | src/modules/lookup/lookup.component.ts:261-274 | data without repeated candidates gives results without repeats, so the navigation lemmas apply to the menu shown |
| Lookup.LookupComponent.SearchOpensMenu | src/modules/lookup/lookup.component.ts:250-259 | a search leaves no timer and a valid menu, open exactly when the text is non-empty, at least `minChars` long and not the single selection's descriptor; then it shows the fresh results with the first highlighted |
| Lookup.LookupComponent.ResolveKeepsMenu | src/modules/lookup/lookup.component.ts:228-248 | resolving keeps the menu invariant and closes the menu exactly when it commits an item |
| Lookup.LookupComponent.NotifySelectionChange | src/modules/lookup/lookup.component.ts:340-344 | one event is emitted, carrying the current selection as its result |
| Lookup.LookupComponent.ClearQueuedSearch | src/modules/lookup/lookup.component.ts:221-226 | afterwards no search timer is armed |
| Lookup.LookupComponent.QueueSearch | src/modules/lookup/lookup.component.ts:216-219 | afterwards exactly one search timer is armed |
| Lookup.LookupComponent.SearchTimerFires | src/modules/lookup/lookup.component.ts:218 | an armed timer performs the search; a cancelled one changes nothing |
| Lookup.LookupComponent.OpenMenu | src/modules/lookup/lookup.component.ts:307-320 | the menu becomes open and valid, showing the dropdown if it was closed and highlighting the first result if any |
| Lookup.LookupComponent.CloseMenu | src/modules/lookup/lookup.component.ts:208-212 | the timer is cancelled, the dropdown hidden and the highlight dropped |
| Lookup.LookupComponent.MoveActiveMenuItemDown | src/modules/lookup/lookup.component.ts:322-329 | the highlight moves as `NextActive` says and the menu stays valid |
| Lookup.LookupComponent.MoveActiveMenuItemUp | src/modules/lookup/lookup.component.ts:331-338 | the highlight moves as `PreviousActive` says and the menu stays valid |
| Lookup.LookupComponent.UpdateSearchResults | src/modules/lookup/lookup.component.ts:261-274 | the index loop with its early return leaves exactly the search results of `Filter` for the current text and selection |
| Lookup.LookupComponent.PerformSearch | src/modules/lookup/lookup.component.ts:250-259 | the menu becomes what `SearchOpensMenu` describes |
| Lookup.LookupComponent.SelectItem | src/modules/lookup/lookup.component.ts:175-189 | the selection changes as `CommitSelects`/`CommitAnnounces` describe and the menu closes |
| Lookup.LookupComponent.RemoveSelectedItem | src/modules/lookup/lookup.component.ts:191-199 | the selection changes as `RemoveShrinks`/`RemoveDeselects` describe |
| Lookup.LookupComponent.ClearSearchText | src/modules/lookup/lookup.component.ts:123-129 | the selection changes as `ClearSettles` describes |
| Lookup.LookupComponent.RevertSelection | src/modules/lookup/lookup.component.ts:299-305 | the text changes as `RevertSettles` describes |
| Lookup.LookupComponent.ResolvePartialSearch | src/modules/lookup/lookup.component.ts:228-248 | clears blank text, keeps a text naming the single selection, else commits the highlight or the first fresh result or clears; the menu stays valid |
| Lookup.LookupComponent.InputFocused | src/modules/lookup/lookup.component.ts:115-121 | gaining focus changes nothing else; losing it resolves the partial search |
| Lookup.LookupComponent.WindowClick | src/modules/lookup/lookup.component.ts:201-206 | resolves the partial search if the input had focus or the menu was open, then always closes the menu |
| Lookup.LookupComponent.Keydown | src/modules/lookup/lookup.component.ts:131-148 | Escape reverts and closes, Backspace removes the last selection as `PopRemovesLast` says, Up/Down move the highlight, other keys change nothing |
| Lookup.LookupComponent.Keyup | src/modules/lookup/lookup.component.ts:151-169 | the text is taken over; Enter commits the highlight or searches at once; any key other than Enter, Escape, Up and Down arms the timer |
| Lookup.LookupComponent.SearchTextChanged | src/modules/lookup/lookup.component.ts:171-173 | the text is replaced and nothing else changes |
| Lookup.LookupComponent.Destroy | src/modules/lookup/lookup.component.ts:111-113 | tearing down closes the menu, so no search timer is left |

## Left out

- The radio group component (src/modules/radio/radio-group/radio-group.component.ts): it is an Angular form adapter with no logic of its own beyond wiring.
- Real time: the debounce delay `searchDelay` is not modelled. The timer is a flag, and its firing is the explicit step `SearchTimerFires`.
- Dropdown positioning, the renderer, the window object and the DOM: dropdown calls are only logged. The model assumes that `hideDropdown` always raises the adapter's close event, which sets `open` to false. `CloseMenu` therefore clears `open` itself.
- Placeholder text and resource strings, template selection, `ngOnInit` (empty) and `event.preventDefault()`: presentation only.
- Lookup.LookupComponent.IsSearchMatch: `toLowerCase` is modelled for ASCII letters only. Other characters are left unchanged, so Unicode case mapping is not captured.
- Text.IsWhitespace: the regular expression `\s` and `String.prototype.trim` are modelled by the ECMAScript whitespace and line-terminator code points. A `char` is a Unicode scalar value; whitespace and substring tests give the same answers as on UTF-16 code units.
- Lookup.LookupComponent.ShouldOpenMenu and Lookup.LookupComponent.PerformSearch: the text length compared with `minChars` counts Unicode scalar values, so a character outside the Basic Multilingual Plane counts 1 here where the source's `length` counts 2 UTF-16 code units; lone surrogates cannot be represented.
- Lookup.NavigationByIndex and Lookup.NavigationRoundTrip: the one-step, no-wraparound movement is proved only for results without repeated candidates (which `data` without repeats guarantees, by `SearchForDistinct`); with a repeated reference the source moves the highlight relative to its first copy, as `NavigationWithRepeatedItem` shows.
- Lookup.LookupComponent.PerformSearch and Lookup.LookupComponent.UpdateSearchResults: `minChars` and `resultsLimit` are integers here, while the source accepts any number and compares it at lines 252 and 265. A `resultsLimit` strictly between -1 and 0, or equal to -Infinity, is truthy and already reached, so it acts as a negative limit (no results). NaN or +Infinity as `resultsLimit` never caps the results and acts as the unset limit 0. A `minChars` of -Infinity acts as any `minChars` of 0 or less. NaN or +Infinity as `minChars` never lets the menu open, and no integer reproduces that. Any other non-integer acts as its ceiling.
- Event delivery through `EventEmitter`: events go into a ghost log. The `result` field is the selection right after the change. Later in-place mutation of the live array, which a subscriber holding it would see, is not captured.
- Candidates.Property: property values that are not strings are not modelled. A missing property reads as the empty string, so single-mode `selectItem` and `revertSelection` show `""` where the source would assign `undefined`.
- The inputs (`multiple`, `data`, `minChars`, `propertiesToSearch`, `descriptorProperty`, `resultsLimit`) are fixed at construction. Angular can rebind them later; that is not modelled.
- `selectedItems` is always a list. The guards against a missing array (lines 192 and 300) are therefore always true.
- `results` starts out as the empty list rather than `undefined`.
- Lookup.MenuValid: the invariant only says that a highlighted item lies among the results when there are any. A search that finds nothing while the menu is open keeps the previous highlight, exactly as the source does.
