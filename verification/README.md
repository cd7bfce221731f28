# Prompt catalog browser — a Dafny model of its decision logic

The catalog browser is a single-page app. It loads a list of prompt records,
groups them into categories, and shows either a grid of categories or a list
of records. The list can be narrowed by favorites-only, by the selected
category and by a search text. A drawer shows one record at a time.
Navigation lives in the location fragment (`#/category/<slug>`,
`#/prompt/<id>`).

This project models the logic under the DOM code in `app.js` as pure Dafny
functions over an immutable state, and proves what that logic promises:

| file | module | what it models |
|---|---|---|
| `text.dfy` | `Text` | `Array.prototype.filter`; JavaScript white space, `trim`, `toLowerCase` and `includes` |
| `slug.dfy` | `Slug` | `slugify` |
| `uri.dfy` | `Uri` | UTF-8 percent-encoding: `encodeURIComponent`, `decodeURIComponent`, and the URL Standard's fragment percent-encode set |
| `location.dfy` | `Location` | what `location.hash` reads back after the page assigns to it |
| `routes.dfy` | `Routes` | `getRoute` and the fragments the app writes |
| `html.dfy` | `Html` | `escapeHtml` |
| `catalog.dfy` | `Catalog` | prompt records, record lookup, category aggregation in `loadData` |
| `ordering.dfy` | `Ordering` | the name sort of the category list |
| `favorites.dfy` | `Favorites` | the favorites set and its stored array |
| `state.dfy` | `AppState` | the state record |
| `listing.dfy` | `Listing` | the three-stage record filter of `renderList` |
| `controller.dfy` | `Controller` | `updateView`, the chip handlers, `openPrompt`, `closeDrawer`, the listeners |

Two things the code relies on but does not define are parameters of the model:
- `extra: char -> bool` is the non-Latin letter range of the slug alphabet.
- `le` is the locale collation.

`encodeURIComponent` and `decodeURIComponent` are modelled concretely
(ECMAScript, section 19.2.6 of ECMA-262), over the UTF-8 bytes of each
character. So is the browser's handling of `location.hash`. The setter drops
one leading `#`, removes tabs and newlines, and percent-encodes the rest with
the URL Standard's fragment percent-encode set: the C0 controls, space, `"`,
`<`, `>`, `` ` `` and every code point above U+007E. The getter gives `""`
for an empty fragment and otherwise `#` and the stored text, without
decoding. The state keeps the fragment as the getter reads it
(`Location.StoredHash` of what was written). The tagged route is always
derived from that string by `Routes.ParseRoute`.
JavaScript truthiness is modelled explicitly. The empty slug counts as "no
category selected" (`AppState.HasCategory`). Any non-empty search text, even
white space alone, switches to the list.

Three facts about the code shape the model:
- The route parser does not URI-decode the captured slug or prompt id.
- `closeDrawer` goes to the selected category's fragment, not to the
  previously visited route.
- `slugify` does no transliteration: characters outside the slug alphabet are
  dropped.

## Model

| member | source | states |
|---|---|---|
| Text.Filter | app.js:128-143 | the filtered list holds each element passing the test as many times as the input does and nothing else, is no longer than the input, and is the input when every element passes or empty when none does |
| Text.FilterAppend | app.js:128-143 | filtering a concatenation is concatenating the filtered parts |
| Text.FilterIsSubseq | app.js:128-143 | filtering keeps the survivors in their original order |
| Text.FilterFilter | app.js:128-143 | two successive filters are one filter by the conjunction of their tests |
| Text.Trim | app.js:135 | `trim` gives a contiguous slice with no white space at either end, what it cuts off on each side is all white space, and it is empty exactly when the text is all white space |
| Text.TrimLower | app.js:135 | trimming and lower-casing commute |
| Text.Lower | app.js:135 | `toLowerCase` keeps the length, maps each character by the one-character case mapping, leaves no modelled capital, keeps white space where it is, and leaves text without capitals unchanged |
| Text.LowerIdempotent | app.js:135 | lower-casing twice is lower-casing once |
| Text.Contains | app.js:138-141 | a text includes each of its prefixes, and only a needle no longer than the text can be included |
| Text.ContainsAt | app.js:138-141 | `includes` holds exactly when the needle occurs at some position of the text |
| Slug.SpacesToHyphens | app.js:45 | the result keeps no white space; with hyphens removed it is the input's characters that are neither hyphen nor white space, in order; a hyphen appears when the input has white space; text without white space is unchanged |
| Slug.SpacesToHyphensRun | app.js:45 | each maximal white-space run becomes exactly one hyphen in its place: text without white space, then a run, then text not starting with white space gives the first text, one hyphen, and the result for the rest |
| Slug.KeepSlugChars | app.js:46 | the result is a subsequence of the input holding each slug-alphabet character as many times as the input does and no other character |
| Slug.CollapseHyphens | app.js:47 | no two hyphens are adjacent in the result; with hyphens removed it equals the input with hyphens removed; it holds a hyphen exactly when the input does and is empty exactly when the input is; text without a hyphen run is unchanged |
| Slug.CollapseHyphensRun | app.js:47 | each maximal hyphen run becomes exactly one hyphen in its place: text without a hyphen, then a run, then text not starting with a hyphen gives the first text, one hyphen, and the result for the rest |
| Slug.Slugify | app.js:42-48 | every slug character is in the slug alphabet and is neither a capital nor white space, and no two hyphens are adjacent |
| Slug.SlugifyIdempotent | app.js:42-48 | the slug of a slug is the slug itself |
| Slug.SlugifyEmptyIff | app.js:42-48 | the slug is empty exactly when the name has no white space and no character whose lower-case form is in the alphabet |
| Routes.MatchRoute | app.js:56-57 | the anchored pattern matches exactly when the prefix is followed by a non-delimiter, and it captures the longest delimiter-free block |
| Routes.ParseRoute | app.js:54-61 | the route is a prompt exactly when the prompt pattern matches, a category exactly when the category pattern matches, otherwise home, and it carries the captured block |
| Routes.PatternsExclusive | app.js:56-58 | the two patterns never both match, so checking the prompt pattern first never hides a category |
| Routes.CapturesUnique | app.js:56-57 | the captured block is determined by the fragment |
| Routes.RouteHash | app.js:198-211 | home writes the empty fragment and nothing else does; a category fragment is the category prefix followed by the slug; a prompt fragment is the prompt prefix followed by text made only of unreserved characters and escapes, which `decodeURIComponent` turns back into the id |
| Routes.CategoryRoundTrip | app.js:50-61 | once the browser has stored `#/category/<slug>`, it reads back as `#/category/` and the slug's fragment encoding, which is the category `getRoute` returns, for every delimiter-free slug that is not all tabs and newlines |
| Routes.CategoryRoundTripSafe | app.js:50-61 | a non-empty slug with no route delimiter (`\n`, `#`, `?`) that the fragment encoding leaves alone (printable ASCII other than space, `"`, `<`, `>` and `` ` ``) reads back as itself |
| Routes.CategoryCutAtDelimiter | app.js:56 | a slug that holds a `?` or `#` after a non-empty, delimiter-free, fragment-safe start reads back as that start alone, because the capture `[^\n#?]+` stops there |
| Routes.EmptySlugReadsHome | app.js:56-60 | the empty slug writes `#/category/`, which captures nothing and reads back as the home route |
| Routes.PromptRoundTrip | app.js:54-61 | the browser stores `#/prompt/<encodeURIComponent(id)>` unchanged, and it reads back as a prompt carrying the encoded, not the original, id; the empty id reads back as home |
| Routes.HomeRoundTrip | app.js:50-61 | the empty fragment is stored as `""` and is the home route |
| Routes.ReadSlugSafe | app.js:54-57 | the slug captured from any value `location.hash` can read is one the fragment encoding leaves alone |
| Routes.ParseRouteDecoded | app.js:54-61 | the corrected `getRoute` matches the same patterns and URI-decodes the captured slug or id, keeping it as it is when decoding fails |
| Routes.DecodedRoundTrip | app.js:50-61 | with decoding, a written route reads back as itself: home; a category whose slug is non-empty and holds no route delimiter (`\n`, `#`, `?`), no `%`, tab or newline; and a prompt with a non-empty id |
| Uri.PercentEncode | app.js:201 | text made of kept characters is unchanged; every output character is a kept input character or part of a `%XX` escape; a `%` appears when some character is not kept; the output is empty exactly when the input is |
| Uri.DecodeEncode | app.js:201 | decoding the percent-encoding of a text without a kept `%` gives back the text |
| Uri.EncodeUriComponent | app.js:201 | the encoded text holds only unreserved characters and escape characters, text made only of unreserved characters is unchanged, and the result is empty exactly on the empty text |
| Uri.EncodeUriComponentChar | app.js:201 | wherever it stands, an unreserved character (letters, digits, `-_.!~*'()`) is kept as it is and any other character becomes the `%XX` escapes of its UTF-8 bytes, with the text around it encoded independently |
| Uri.EncodeUriComponentAppend | app.js:201 | encoding a concatenation is concatenating the encoded parts |
| Uri.DecodeEncodeUriComponent | app.js:201 | `decodeURIComponent` inverts `encodeURIComponent` on every text |
| Uri.PercentDecode | app.js:54-61 | `decodeURIComponent`, which the corrected route parser applies to the capture, copies text without `%` unchanged; `Uri.DecodeEncode` shows it inverts every percent-encoding |
| Uri.FragmentEncode | app.js:50-52 | the stored fragment holds no character of the fragment percent-encode set; text without such characters is unchanged; every stored character is a kept input character or part of an escape |
| Uri.FragmentEncodeEscapes | app.js:50-52 | a character of the fragment set other than a tab or newline makes the stored fragment hold a `%` |
| Uri.FragmentEncodeEmpty | app.js:50-52 | the stored fragment is empty exactly when the text is all tabs and newlines |
| Uri.DecodeFragment | app.js:50-52 | decoding the stored fragment of a text with no `%`, tab or newline gives back the text |
| Location.StoredHash | app.js:50-55 | what `location.hash` reads after an assignment is `""` or `#` followed by text outside the fragment percent-encode set |
| Location.StoredHashFixed | app.js:50-55 | assigning a value back changes it exactly when it is not `""` or `#` followed by such text |
| Location.StoredHashIdempotent | app.js:50-55 | assigning what was read back stores the same value |
| Location.StoredUnderPrefix | app.js:50-52 | below a prefix the encoding leaves alone, the stored value is the prefix followed by the encoded rest |
| Html.ReplaceAll | app.js:281-285 | `replaceAll` of one character leaves no occurrence of it when the replacement has none, introduces only replacement characters and other characters of the input, and leaves text without the character unchanged; `Html.ReplaceAllAppend` shows it works piece by piece |
| Html.EscapeHtml | app.js:279-286 | the result contains no `<`, `>`, `"` or `'` |
| Html.EscapeHtmlIsPerCharacter | app.js:279-286 | the five chained replacements, ampersand first, amount to escaping each character on its own |
| Html.EscapeHtmlIdentity | app.js:279-286 | text without any of the five special characters is unchanged |
| Html.EscapeHtmlAmpersands | app.js:279-286 | every `&` of the result starts one of the five entities |
| Html.UnescapeEscapeHtml | app.js:279-286 | decoding the five entities gives back the original text, so no information is lost |
| Catalog.FindRecord | app.js:199 | the result is the first record of the catalog with that id, and none is found exactly when no record has that id |
| Catalog.TallyStep | app.js:33-37 | one loop iteration keeps the tally faithful for the records seen so far |
| Catalog.TallyAll | app.js:33-37 | running the loop over every record leaves a faithful tally of all of them |
| Catalog.DeriveCategories | app.js:32-38 | there is one entry per distinct category name, keyed and named by it, with its slug and a count of at least 1 equal to its number of records, and the counts add up to the number of records |
| Ordering.SortByName | app.js:39 | under any total preorder on names, the sort returns the same entries in non-decreasing name order |
| Ordering.SortKeepsEntries | app.js:39 | under any total preorder on names, sorting neither adds nor drops an entry |
| Ordering.LoadCategories | app.js:32-39 | the category list is in name order, each entry carries its slug, name and count, and every category name has an entry |
| Favorites.Toggle | app.js:185-190 | the toggled id flips membership and every other id keeps it |
| Favorites.ToggleInvolution | app.js:185-190 | toggling an id twice restores the set |
| Favorites.Persist | app.js:191 | the stored array holds each favorite exactly once and nothing else |
| Favorites.Load | app.js:7 | a missing key gives the empty set; otherwise the set holds exactly the stored elements |
| Favorites.PersistThenLoad | app.js:7 | reading back what was stored gives the same set |
| AppState.Initial | app.js:1-8 | the app starts with no category, no search text and favorites-only off |
| Listing.Query | app.js:135 | the query is empty exactly when the search text is all white space |
| Listing.MatchesQuery | app.js:137-142 | a record matches exactly when the query occurs, at some position, in the lower-cased title, description, category or one of the tags |
| Listing.Visible | app.js:128-143 | a record is listed exactly when it is in the catalog and passes each stage that is switched on |
| Listing.VisibleIsOneFilter | app.js:128-143 | the three stages together are one filter of the catalog by all the active tests |
| Listing.VisibleInCatalogOrder | app.js:128-143 | the list is a subsequence of the catalog |
| Listing.SearchNarrows | app.js:135-143 | the list with any search text is a subsequence of the list with none |
| Listing.BlankSearchFiltersNothing | app.js:135-136 | a search text of white space alone filters nothing |
| Listing.NoFavoritesNoRecords | app.js:129-131 | with favorites-only on and no favorites the list is empty |
| Listing.SearchIgnoresCase | app.js:135-141 | lower-casing the search text leaves the list unchanged |
| Listing.TagMatchExample | app.js:135-141 | the search `email` lists a record whose only match is its tag `Email-рассылка` |
| Controller.UpdateView | app.js:288-299 | the list shows exactly on a category route, with non-empty search text, or with favorites-only; a category route selects its slug; nothing else changes; the list holds the filtered records of the updated state |
| Controller.UpdateViewIdempotent | app.js:288-299 | a second `updateView`, as the following `hashchange` does, changes nothing |
| Controller.UpdateViewKeepsSynced | app.js:293-295 | a state whose selection already matches its category route is left as it is |
| Controller.SlugDelimiterFree | app.js:46 | a slug holds no route delimiter when the extra alphabet holds none |
| Controller.ChipClick | app.js:72-77 | a chip click changes only the selection and the fragment, leaves them in step, and leaves a fragment the browser stores unchanged |
| Controller.ChipSelects | app.js:72-77 | selecting a chip that is not selected, whose slug holds no route delimiter (`\n`, `#`, `?`) and is not all tabs and newlines, selects the slug as the fragment reads it back, its fragment encoding; the list holds exactly the records whose slug equals that encoding and pass favorites-only and the search |
| Controller.ChipSelectsAsciiSlug | app.js:72-77 | a chip that is not selected, whose slug is non-empty, holds no route delimiter (`\n`, `#`, `?`) and is left alone by the fragment encoding, selects its own slug and lists exactly that category's records that pass the other stages |
| Controller.EncodedChipListsNothing | app.js:72-77 | when the slug alphabet has no `%`, a chip that is not selected, whose slug is non-empty, holds no route delimiter (`\n`, `#`, `?`), tab or newline, and holds a character of the fragment set, as every Cyrillic slug does, selects a text with `%` that no slug equals: its list is empty and no chip is drawn pressed |
| Controller.CyrillicChipListsNothing | app.js:72-77 | when the slug alphabet has no `%` and the chip is not selected, the chip `маркетинг` lists nothing |
| Controller.UpdateViewDecoded | app.js:288-299 | the corrected `updateView` selects the decoded slug of a category route and otherwise behaves as `updateView` |
| Controller.ChipClickDecoded | app.js:72-77 | the chip handler over the corrected `updateView` changes only the selection and the fragment |
| Controller.ChipDecodedSelects | app.js:72-77 | with decoding, a chip whose slug is not selected, is non-empty, and holds no `%`, route delimiter (`\n`, `#`, `?`), tab or newline selects its own slug, reads back as that category, and lists exactly that category's records that pass the other stages |
| Controller.ChipDeselects | app.js:73-76 | clicking the selected chip clears the selection and the fragment and keeps the search text; the list then shows only if a search or favorites-only asks for it |
| Controller.EmptySlugChipFiltersNothing | app.js:73-75 | a chip with the empty slug that is not selected selects `""`, which writes no category fragment and filters nothing |
| Controller.AllChipClick | app.js:65-68 | the "All" chip changes only the selection, and clears it off a category route |
| Controller.AllChipIgnoredOnCategoryRoute | app.js:65-68 | on a category route whose slug is the selection, the "All" chip leaves the state as it was |
| Controller.AllChipClickFixed | app.js:65-68 | the corrected "All" chip changes only the selection and the fragment |
| Controller.AllChipFixedClears | app.js:65-68 | after the corrected "All" chip nothing is selected, the route is home, and the list holds every record the other stages let through |
| Controller.OpenPrompt | app.js:198-203 | an unknown id changes nothing; a known id changes only the fragment, to `#/prompt/` and the encoded id, and puts the first catalog record with that id in the drawer |
| Controller.OpenPromptRoute | app.js:201 | when the id names a catalog record, the fragment `openPrompt` writes reads back as a prompt route carrying the encoded id, or as home for the empty id |
| Controller.CloseDrawer | app.js:205-213 | closing changes only the fragment, never leaves a prompt route, and leaves other routes alone |
| Controller.CloseDrawerReturns | app.js:208-212 | closing from a prompt route goes home when no category is selected; otherwise, when the selected slug holds no route delimiter (`\n`, `#`, `?`) and is not all tabs and newlines, it goes to that category's route under the slug's fragment encoding |
| Controller.OpenThenCloseOnCategory | app.js:198-213 | from a category route as the browser stores it, with the selection matching the route, opening a record with a non-empty id and closing it brings back the same category route and the same list |
| Controller.OpenThenCloseAtHome | app.js:198-213 | from the home page with nothing selected, opening a record with a non-empty id and closing it restores the state exactly |
| Controller.OnHashChange | app.js:320-329 | a prompt fragment shows the first catalog record whose id equals the captured text, and shows nothing exactly when no record has that id; any other fragment redraws the view |
| Controller.OpenThenHashChangePlainId | app.js:320-324 | when the id names a catalog record, is non-empty and is made of letters, digits and `-_.!~*'()` only, the `hashchange` after `openPrompt` finds the first record with that id |
| Controller.EncodedIdNotFound | app.js:320-324 | for the one record `"a b"`, `openPrompt` writes `#/prompt/a%20b` and the `hashchange` for it finds no record |
| Controller.OnHashChangeDecoded | app.js:320-329 | the corrected listener shows the first catalog record whose id is the `decodeURIComponent` of the captured text, and nothing exactly when no record has that id; it redraws with the corrected `updateView` otherwise |
| Controller.OpenThenHashChangeDecoded | app.js:320-324 | with decoding, the fragment `openPrompt` writes leads back to the record it opened, for every non-empty id |
| Controller.ToggleFavorite | app.js:185-190 | toggling flips one id's membership and changes nothing else in the state |
| Controller.ToggleFavoriteTwice | app.js:185-190 | toggling the same id twice restores the state |
| Controller.SetSearch | app.js:302-305 | typing sets the search text and changes nothing else but the selection; the selection follows a category fragment and is otherwise kept; the list shows exactly when the text is non-empty, the fragment is a category or favorites-only is on, and then lists the records visible in the new state |
| Controller.BlankSearchShowsUnsearchedList | app.js:302-305 | white space alone switches to the list, which holds what it would hold with no search |
| Controller.ToggleFavoritesOnly | app.js:307-311 | the button flips favorites-only and changes nothing else but the selection; the selection follows a category fragment and is otherwise kept; the list shows exactly when favorites-only is now on, the fragment is a category or the search is non-empty, and then lists the records visible in the new state |
| Controller.FavoritesOnlyListsFavorites | app.js:307-311 | switching favorites-only on lists only favorites, and none when there are no favorites |
| Controller.StartOnCategoryLink | app.js:332-335 | opening the page on a category fragment whose slug holds no route delimiter (`\n`, `#`, `?`) and is not all tabs and newlines selects the slug as the browser stores it and lists exactly the records whose slug equals that |

## Left out

- Rendering: building the DOM, the chips' `aria-pressed`, the list header, the record cards, the drawer content and its hidden state, and the favorite button's label (app.js:63-183, 192-195, 215-264, 343-349). A view is only "grid or list, with these records".
- `fetch` and `res.json` in `loadData`: I/O. The records are an input.
- `localStorage` reads and writes: I/O. Only the values are modelled. A stored value that is not valid JSON is not modelled, because the code does not handle it.
- Favorites.Persist: the array may hold the favorites in any order, because the order in which a JavaScript `Set` yields its elements is not modelled.
- Ordering.SortByName: `localeCompare` with the `ru` locale is replaced by any total preorder `le`, and stability is not stated.
- Ordering.LoadCategories: does not restate that the keys stay distinct after sorting. That follows from `Catalog.DeriveCategories` and the sort keeping its entries.
- The `desc` field of a category entry (app.js:35): nothing the model covers reads it.
- Text.LowerChar: lower-cases only Basic Latin and basic Cyrillic (U+0400..U+042F) capitals. Every other character is left unchanged, so full Unicode case mapping is not modelled.
- Slug.SlugChar: the non-Latin range of the slug alphabet is unreadable in the source's character class, so it is the parameter `extra`.
- Browser behaviour of the location fragment: every assignment is treated as if it fires `hashchange`, including one that leaves the fragment unchanged. The address the page is opened with is taken as stored with the same fragment encoding as an assignment.
- Lone surrogates: a Dafny `char` is a Unicode scalar value, so the `URIError` that `encodeURIComponent` throws on a lone surrogate cannot arise.
- Controller.OpenThenCloseOnCategory: holds for a route `location.hash` can read (one a second store leaves alone) and a non-empty id. For the empty id it fails in the source: `#/prompt/` reads as home, so `closeDrawer` leaves the fragment at `#/prompt/`.
- Controller.OpenThenCloseAtHome: holds for a non-empty id, for the same reason.
- The ordering of asynchronous events. A handler's own `updateView` and the `hashchange` that follows it are modelled as separate steps. `Controller.UpdateViewIdempotent` shows the second changes nothing.
- Copying to the clipboard and its fallback, the toast timer, the async start-up, and wiring the Escape key and the drawer's close button (app.js:21-25, 235-246, 266-277, 313-318, 332-341): browser APIs and timers. Both close paths call `closeDrawer`, which is modelled. At start-up a prompt fragment opens its record the same way the `hashchange` listener does (app.js:336-340).
- The `{{var}}` highlighting in the drawer (app.js:230): presentation markup over already-escaped text.
- A stale selection is not modelled as a separate case: after going back from a category route to the home route, the category stays selected. `Controller.CloseDrawer` covers its effect, since a later close returns to that category.

## Findings

| source | as written | input that shows it | evidently intended | confidence | as-written member | corrected member |
|---|---|---|---|---|---|---|
| app.js:65-68 | the "All" chip sets the selection to `null` but leaves the fragment alone, and `updateView` then re-selects the category from the fragment | on `#/category/x` with `x` selected, click "All": the selection is `x` again and the list still shows only category `x` | clear the fragment too, as deselecting a category chip does | medium, not executed | Controller.AllChipIgnoredOnCategoryRoute | Controller.AllChipClickFixed |
| app.js:320-324 | the `hashchange` listener looks up the captured prompt id without URI-decoding it, while `openPrompt` writes it encoded | one record with id `"a b"`: opening it writes `#/prompt/a%20b`, the listener looks up `"a%20b"` and finds nothing, so a shared or reloaded link to it opens no drawer | decode the captured id before the lookup | medium, not executed | Controller.EncodedIdNotFound | Controller.OpenThenHashChangeDecoded |
| app.js:54-61 | a category chip writes `#/category/<slug>`; the browser stores the fragment percent-encoded, and `getRoute` reads the slug back without decoding, so `updateView` selects the escaped text | the chip of a category named `Маркетинг` (slug `маркетинг`): the selection becomes `%D0%BC%D0%B0…`, no record's slug equals it, the list is empty and no chip is drawn pressed | decode the captured slug in `getRoute` | medium, not executed | Controller.CyrillicChipListsNothing | Controller.ChipDecodedSelects |
