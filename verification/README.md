# Voice selection dialog: search filter and selection state

This project models the voice selection dialog (`VoiceSelectModal`) of a text-to-speech prototype, in Dafny. The dialog has two parts:

- **The voice search.** The dialog keeps a search string. It shows the catalog voices whose name, language or some tag contains that string, after lower-casing both sides. The voices are shown in catalog order.
- **The selection rules.** The card whose id equals the host's `value` is highlighted and check-marked. Clicking a card reports that card's id to the host. OK closes the dialog, and so does the close button. An empty result shows "No voices found.".

Modules:

- `Text` (`text.dfy`) models `toLowerCase` on ASCII A-Z. It also models `includes`, with a reference definition by slice position.
- `Subsequences` (`subsequence.dfy`) defines order-preserving sub-lists.
- `VoiceFilter` (`voice_filter.dfy`) holds the `Voice` record, the per-voice search predicate `Matches`, the recursive `Filter`, and its lemmas. These cover the empty search, case-insensitivity, idempotence, monotonicity in the query, and unique ids.
- `VoiceFilterExample` (`voice_filter.dfy`) holds the "Amelia" / "zzz" worked example.
- `VoiceDialog` (`voice_dialog.dfy`) is the dialog as a state machine. The state is `State(open, value, search)`. The events are typing, clicking the i-th shown card, OK, and close. `Render` gives the card grid with its highlight flags and the empty-state flag.

`open` and `value` are props the host owns. The dialog changes them only through `onOpenChange` and `onChange`. The model assumes the host feeds both callbacks straight back into the props, as `src/pages/TextToAudioPage.tsx` does. So the model keeps them in the dialog state.

Facts about the code that shape the model:

- Clicking a card calls `onChange` at once (line 85). OK only closes the dialog, and closing does not undo the selection.
- The only filter is the free-text search. Line 71 leaves room for more filters, but none exist.

## Model

| member | source | states |
|---|---|---|
| Text.LowerChar | src/components/VoiceSelectModal.tsx:44-46 | lower-casing one character yields no capital; capitals map to the matching small letter; every other character is kept |
| Text.ToLower | src/components/VoiceSelectModal.tsx:44-46 | `toLowerCase` keeps the length, lower-cases each position, and leaves no capital in its result |
| Text.IncludesIff | src/components/VoiceSelectModal.tsx:44-46 | `includes(s, q)` holds exactly when `q` equals the slice of `s` at some start position (both directions) |
| Text.IncludesTransitive | src/components/VoiceSelectModal.tsx:44-46 | if `a` contains `b` and `b` contains `c`, then `a` contains `c` |
| VoiceFilter.Filter | src/components/VoiceSelectModal.tsx:42-47 | the shown list is a subsequence of the catalog, so there are no invented voices and catalog order is kept; a voice is in it exactly when it is in the catalog and matches the search |
| VoiceFilter.FilterCounts | src/components/VoiceSelectModal.tsx:42-47 | each matching voice appears in the shown list exactly as often as in the catalog, and a non-matching voice not at all; with the subsequence clause of `Filter` this pins the result down |
| VoiceFilter.SomeTagIncludesIff | src/components/VoiceSelectModal.tsx:46 | `tags.some(...)` holds exactly when some tag, lower-cased, contains the lower-cased search |
| VoiceFilter.ShownIff | src/components/VoiceSelectModal.tsx:42-47 | a catalog voice is shown iff its lower-cased name, its lower-cased language or some lower-cased tag contains the lower-cased search |
| VoiceFilter.NameFindsVoice | src/components/VoiceSelectModal.tsx:44 | typing a voice's name in any capitalisation shows that voice |
| VoiceFilter.FilterEmptySearch | src/components/VoiceSelectModal.tsx:40-47 | with the initial empty search the shown list equals the catalog exactly |
| VoiceFilter.FilterCaseInsensitive | src/components/VoiceSelectModal.tsx:44-46 | two searches with the same lower-cased form show identical lists |
| VoiceFilter.FilterIdempotent | src/components/VoiceSelectModal.tsx:42-47 | filtering the shown list again with the same search returns it unchanged |
| VoiceFilter.MatchesNarrow | src/components/VoiceSelectModal.tsx:44-46 | a voice matched by a search is matched by every search that the first one contains (lower-cased) |
| VoiceFilter.FilterMonotone | src/components/VoiceSelectModal.tsx:42-47 | if lower-cased `s1` is inside lower-cased `s2`, the list for `s2` is a subsequence of the list for `s1` |
| VoiceFilter.TypingNarrows | src/components/VoiceSelectModal.tsx:42-47 | under ASCII lower-casing, appending characters to the search never brings a voice back: the new list is a subsequence of the old one |
| VoiceFilter.FilterKeepsUniqueIds | src/components/VoiceSelectModal.tsx:76-78 | if catalog ids are unique, so are the ids of the shown cards, which React uses as keys |
| VoiceFilterExample.AmeliaFound | src/components/VoiceSelectModal.tsx:44 | a one-voice catalog "Amelia" is found by any query that lower-cases to "amelia" |
| VoiceFilterExample.NothingFound | src/components/VoiceSelectModal.tsx:119-121 | the query "zzz" returns the empty list for the one-voice "Amelia"/"English"/"Calm" catalog |
| VoiceDialog.Render | src/components/VoiceSelectModal.tsx:76-121 | one card per shown voice, in order; a card is highlighted exactly when its id equals `value`; "No voices found." shows exactly when no catalog voice matches the search |
| VoiceDialog.Step | src/components/VoiceSelectModal.tsx:56-127 | a closed dialog ignores events; only OK or close changes `open`, and only to false; only typing changes the search; only a card click changes `value`, and only to the id of a catalog voice matching the search; clicking the i-th shown card sets `value` to its id |
| VoiceDialog.OnlyClicksSelect | src/components/VoiceSelectModal.tsx:85 | any run of events without a card click leaves the host's selected voice unchanged |
| VoiceDialog.ClosedStaysClosed | src/components/VoiceSelectModal.tsx:50 | a closed dialog stays closed and unchanged under any events |
| VoiceDialog.SelectionFromCatalog | src/components/VoiceSelectModal.tsx:76-85 | after any run of events the selected id is the initial one or the id of a catalog voice |
| VoiceDialog.AtMostOneHighlighted | src/components/VoiceSelectModal.tsx:81-84 | with unique catalog ids, at most one shown card is highlighted |
| VoiceDialog.ClickHighlightsCard | src/components/VoiceSelectModal.tsx:81-85 | with unique ids, clicking the i-th card keeps the dialog open and highlights exactly that card |

## Left out

- Markup and presentation are not modelled: CSS classes, the gender icons, the Play button (which has no handler) and the avatar image.
- The avatar fallback on image error (`src/components/VoiceSelectModal.tsx:93`) is not modelled. It depends on the browser's `onError` and on `encodeURIComponent`.
- Text.ToLower: lower-cases ASCII A-Z only. JavaScript's full Unicode lower-casing is not modelled.
- VoiceFilter.TypingNarrows: relies on the ASCII lower-casing, which distributes over concatenation. JavaScript's `toLowerCase` does not: its final-sigma rule lower-cases "AΣ" to "aς" but "AΣB" to "aσb", so under it typing more characters can bring a voice back. `VoiceFilter.FilterMonotone` states the property for the lower-cased queries and does not depend on this.
- The Radix `Dialog` internals are left out. The close button, Escape and an overlay click all become one `ClosePressed` event that sets `open` to false.
- Opening the dialog is not modelled: it is the host page's button, outside the dialog. Each run starts from a given state.
- The host page passes `languageOptions`, `currentLanguage` and `onLanguageChange`. The dialog's props do not declare them, so it ignores them, and they are not modelled.
- `src/pages/TextToAudioPage.tsx` and the static layouts `src/components/DesktopLayout.tsx` and `src/pages/Index.tsx` are not part of this model.
