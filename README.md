# NewsPulse widget core, in Dafny

A model of the state-and-data core of the NewsPulse browser news widget (`app.js`). The widget
fetches pages of articles from the newsdata.io "latest" endpoint, normalises each untyped record
into a fixed-shape article, merges the page into an in-memory collection (dropping ids it already
holds and admitting at most `PAGE_SIZE = 9` new articles per page), tracks the pagination cursor,
guards against overlapping fetches with an `isLoading` flag, derives the country, language and
category choices of the three filter selects, and filters the collection by a free-text query
plus those three facets.

Modules, one per component of `app.js`:

- `Values` — the untyped JSON field (`JsVal`), `safeText`, `Array.isArray(v) ? v : []`, and `||` on strings.
- `Text` — ASCII case mapping and trimming, `includes`, `replace` / `replaceAll` with a one-character
  pattern, and the default string order of `Array.prototype.sort`.
- `Articles` — `RawArticle`, `Article`, the string part of `parsePubDate`, `normalizeArticle`.
- `Filters` — the filter criteria, `matchesFilters`, `state.all.filter(matchesFilters)`, and the chip list of `updateChips`.
- `Facets` — `uniq`, sorting, and `buildSelectOptions`.
- `Html` — `escapeHtml`, with a per-character reference definition and an entity decoder as its inverse.
- `Collection` — deduplication against the loaded ids, the page-size slice, append or replace, the
  cursor (`data.nextPage || null`) and the `page` query parameter decision.
- `Fetching` — the shared `state` object as the class `NewsState`: `fetchNews` (split at the `await`
  into `BeginFetch` and `CompleteFetch`), `applyFiltersAndRender`, and the filter, chip, clear and
  refresh handlers.
- `Theme` — `loadTheme` and `toggleTheme` as functions and as the class `ThemeSwitch` over the
  document attribute and the saved value.
- `TimeLabel` — the integer bucketing of `timeAgo`.

`fetchNews` is asynchronous. Its synchronous prefix (the guard, the loading indicators, the URL)
is `NewsState.BeginFetch`; everything after the response arrives (success or failure, then the
`finally` block) is `NewsState.CompleteFetch`. Other events may run between the two, as they do
in the browser. `NewsState.Fetch` is the composition for the case where nothing intervenes.

Host capabilities are parameters: the response of `fetch` / `res.json()` is a `Response` value;
`crypto.randomUUID` is `Host.fallbackId`, which gives the fallback id of the record at each
position of a page (each response is normalised with a host of its own); the `Date` parser is `Host.parseDate` (text to milliseconds, or nothing);
the time-of-day text of the status label is `Host.clock`; `Date.now()` in `timeAgo` is the
parameter `now`; `localStorage` is the `saved` field of `ThemeSwitch`.

Behaviour of the code worth knowing:

- Replacing (`append = false`) still drops the page's articles whose ids the old collection
  held (`Collection.ReplaceWithSamePageEmpties`), and still keeps at most 9 articles
  (`Collection.Merge`).
- Deduplication is only against the collection that was already loaded. Two articles with the
  same id on one page both enter (`Collection.RepeatedIdInOnePageIsKept`).
- A record without an id gets a fresh random id each time it is normalised, so the same record
  re-sent in a later page is admitted again (`Fetching.ResentIdlessRecordIsAdmitted`).
- The empty state is never shown right after a fetch. `applyFiltersAndRender` runs while
  `isLoading` is still true, and the `finally` block does not re-evaluate it
  (`Fetching.NewsState.CompleteFetch`, and the invariant `NewsState.Valid`).
- A refresh whose fetch fails leaves the collection empty while the articles loaded before it
  stay on screen, together with their facets (`Fetching.NewsState.RefreshAndLoad`).
  A refresh during a fetch in flight only clears the collection and the cursor
  (`Fetching.NewsState.Refresh`). The pending
  fetch then merges its page into the emptied collection (`Fetching.RefreshDuringFlight`).

## Model

| member | source | states |
|---|---|---|
| Values.SafeText | app.js:70 | a string field is kept as it is; anything non-empty that comes out was that string |
| Values.ArrayOrEmpty | app.js:133-135 | an array field is kept; anything else is the empty list |
| Values.OrElse | app.js:126-131 | JavaScript's or on two strings: the first unless it is empty, then the second |
| Text.TrimBlank | app.js:142 | a string trims to nothing exactly when all its characters are white space |
| Text.ContainsIff | app.js:149 | `includes` holds exactly when the needle occurs at some position of the hay |
| Text.LowerOfUpper | app.js:95 | lower-casing after upper-casing equals lower-casing |
| Text.TrimUpper | app.js:95 | trimming and upper-casing commute |
| Text.IndexOf | app.js:97 | the first position of a character, or the length when it is absent |
| Text.ReplaceFirst | app.js:97 | `replace` with a one-character pattern changes only the first occurrence |
| Text.LessTransitive | app.js:209-211 | the string order used for sorting is transitive |
| Text.LessTotal | app.js:209-211 | two distinct strings are ordered one way or the other |
| Text.LessIrreflexive | app.js:209-211 | no string is below itself |
| Articles.PubDateText | app.js:89-97 | no date text gives nothing; a UTC label (any case) turns the first space into `T` and appends `Z`; any other label keeps the text |
| Articles.UtcDateBecomesIso | app.js:94-97 | "date time" with a UTC label in any letter case becomes "dateTtimeZ" |
| Articles.DocumentedUtcExample | app.js:90-97 | "2026-01-30 09:40:00" with "utc" becomes "2026-01-30T09:40:00Z" |
| Articles.ParsePubDate | app.js:89-105 | no date text gives no instant; otherwise the host parser's verdict on the reshaped text |
| Articles.NormalizeArticle | app.js:124-139 | id is `article_id` when that is a non-empty string, else the fallback; title never empty (`"Untitled"`); sourceName never empty (`source_name`, `source_id`, `"Source"`); every text field its string or ""; country and category the array or empty; publishedAt none without date text, else the host parser's verdict on the reshaped text |
| Articles.EmptyRecordDefaults | app.js:124-136 | a record with no usable field normalises to all the documented defaults |
| Filters.Matches | app.js:141-165 | an article that matches satisfies every criterion that is set: the query occurs in the text, the country and category are listed, the language is equal |
| Filters.MatchesIff | app.js:141-165 | an article matches iff the trimmed lower-cased query is blank or occurs in the lower-cased "title description", and each non-empty country, language and category criterion holds |
| Filters.NoCriteriaMatchesAll | app.js:141-165 | with every criterion empty (or a blank query) every article matches |
| Filters.BlankQueryIsNoConstraint | app.js:142-147 | a query of white space only gives the same verdict as no query |
| Filters.EmptyLanguageNeverMatches | app.js:156-158 | an article without a language fails every non-empty language criterion |
| Filters.QueryIgnoresCase | app.js:142-149 | upper-casing the query does not change any verdict |
| Filters.ElectionExample | app.js:141-149 | title "Election results" matches the query "election" |
| Filters.FilterArticles | app.js:290 | the visible list is never longer than the collection |
| Filters.FilterArticlesMembers | app.js:290 | the visible list holds exactly the loaded articles that match |
| Filters.FilterConcat | app.js:290 | filtering keeps the collection's order (it distributes over concatenation) |
| Filters.FilterNoCriteria | app.js:290 | with no criteria the visible list is the whole collection |
| Filters.WithField | app.js:387-405 | setting one criterion changes that one and keeps the other three |
| Filters.Chips | app.js:167-172 | there are at most four chips |
| Filters.ChipsShape | app.js:168-172 | each chip is for a non-empty criterion, is captioned with its prefix and value, and chips follow the order search, country, language, category |
| Filters.ChipsInOrder | app.js:168-172 | any two chips appear in the order search, country, language, category |
| Filters.ChipPresent | app.js:168-172 | there is a chip for a criterion exactly when it is non-empty |
| Facets.Uniq | app.js:71 | `uniq` keeps exactly the non-empty values, each once |
| Facets.Sort | app.js:209-211 | sorting is a permutation: the same strings, each as often as in the input |
| Facets.SortDistinct | app.js:209-211 | sorting distinct strings gives a strictly increasing list of the same strings |
| Facets.StrictlySortedPairs | app.js:209-211 | in a sorted option list every value is below every later value |
| Facets.Facet | app.js:209-211 | each option list is strictly sorted, duplicate-free and without "" |
| Facets.FacetMembers | app.js:71 | an option list holds exactly the non-empty values it is built from |
| Facets.Countries | app.js:209 | the flattened countries are exactly those some article lists |
| Facets.Languages | app.js:210 | one language per article; exactly the languages some article has |
| Facets.Categories | app.js:211 | the flattened categories are exactly those some article lists |
| Facets.BuildFacets | app.js:207-211 | the three option lists are strictly sorted, duplicate-free and without "" |
| Facets.BuildFacetsMembers | app.js:207-211 | each option list holds exactly the non-empty values of the loaded articles |
| Html.EscapeHtml | app.js:198-205 | the escaped text contains none of `<`, `>`, `"`, `'` |
| Html.EscapeHtmlPlainText | app.js:198-205 | text without any of `&<>"'` is unchanged |
| Html.EscapeHtmlIsPerChar | app.js:198-205 | the chain of replace-all passes, `&` first, equals escaping each character on its own |
| Html.UnescapeEscapeHtml | app.js:198-205 | decoding the five entities gives back the original text |
| Collection.NewItemsMembers | app.js:346-347 | the id filter keeps exactly the page's articles whose id is not loaded |
| Collection.NewItemsConcat | app.js:347 | the id filter keeps the page's order: filtering two halves and joining them gives the filter of the whole |
| Collection.NewItems | app.js:346-347 | the id filter never lengthens the page |
| Collection.Take | app.js:350 | `slice(0, n)` is a prefix of length min(n, length) |
| Collection.Admitted | app.js:350 | at most 9 articles are admitted from one page |
| Collection.AdmittedMembers | app.js:346-350 | every admitted article is from the page and has an id the collection lacks |
| Collection.AdmittedInPageOrder | app.js:346-350 | the admitted articles are the first survivors of the id filter, in page order |
| Collection.Merge | app.js:352 | appending keeps the old collection as a prefix and adds at most 9; replacing keeps at most 9 |
| Collection.AppendedIdsAreNew | app.js:346-352 | no appended article has an id the collection already held |
| Collection.FreshPageAdmitsItsHead | app.js:346-350 | when no id of the page is loaded, the first 9 articles of the page are admitted |
| Collection.KnownPageChangesNothing | app.js:346-352 | a page of known ids leaves an appended collection unchanged |
| Collection.ReplaceWithSamePageEmpties | app.js:346-352 | replacing with a page of the loaded articles empties the collection |
| Collection.MergeKeepsIdsDistinct | app.js:346-352 | distinct ids stay distinct when the page's ids are distinct |
| Collection.RepeatedIdInOnePageIsKept | app.js:346-347 | a page repeating an id puts both copies in |
| Collection.Cursor | app.js:354 | the cursor is the `nextPage` string when non-empty, otherwise none |
| Collection.PageParam | app.js:328-330 | the `page` parameter is sent iff there is a cursor and the call appends, and it is the cursor |
| Fetching.Accepted | app.js:334-342 | a response is accepted iff 2xx, a JSON object, and `status` is the string "success"; a non-array `results` reads as empty |
| Fetching.NormalizePage | app.js:343 | normalising a page keeps its length |
| Fetching.NormalizePageAt | app.js:343 | the article at position i is the normalisation of record i |
| Fetching.ResentIdlessRecordIsAdmitted | app.js:126 | a record without an id, re-sent, is admitted again under a fresh fallback id |
| Fetching.NewsState.constructor | app.js:35-46 | the state starts empty, idle, without cursor or criteria |
| Fetching.NewsState.ApplyFiltersAndRender | app.js:287-306 | visible = the matching articles; empty state iff idle and nothing visible; load-more disabled iff loading or no cursor |
| Fetching.NewsState.SetFilter | app.js:387-405 | one criterion is set, the others and the data kept, the view recomputed |
| Fetching.NewsState.RemoveChip | app.js:182-193 | the criterion is cleared, its chip removed and the other chips kept; visible list, empty state and load-more recomputed |
| Fetching.NewsState.ClearFilters | app.js:411-418 | all criteria cleared, no chips, the whole collection visible |
| Fetching.NewsState.BeginFetch | app.js:311-330 | while loading nothing changes and no request starts; otherwise the flag is set, error and empty hidden, load-more disabled, and the request carries the cursor iff appending |
| Fetching.NewsState.AcceptPage | app.js:352-358 | the merged collection, the cursor, the facets and the visible list are installed while still loading, so the empty state stays hidden and load-more stays disabled |
| Fetching.NewsState.CompleteFetch | app.js:334-371 | success merges the page, sets the cursor, facets, visible list and status; failure leaves collection, cursor, facets and visible list alone and shows the error; both end idle with the empty state hidden and load-more following the cursor |
| Fetching.NewsState.ShowError | app.js:359-364 | the error is shown and the status is "Error" |
| Fetching.NewsState.EndFlight | app.js:365-370 | the flag is cleared and load-more is enabled iff there is a cursor |
| Fetching.NewsState.Fetch | app.js:311-372 | a call while loading changes nothing; a started call ends idle, with the merge on success and the data untouched on failure |
| Fetching.NewsState.Refresh | app.js:420-425 | the collection and cursor are cleared before the guard; during a flight nothing else changes, otherwise a fetch with append and no page parameter starts with the error and empty state hidden |
| Fetching.NewsState.RefreshAndLoad | app.js:420-425 | the filters are kept; after success the collection is exactly the first 9 articles of the new page, with the new cursor, facets, visible list and status, no error or empty state, and load-more following the cursor; on failure the collection and cursor are empty while the old visible list and facets stay, the status is "Error", the empty state is hidden and load-more is disabled |
| Fetching.SecondFetchWhilePendingIsDropped | app.js:315-316 | a second start while the first is pending starts nothing; exactly one page is merged |
| Fetching.RefreshDuringFlight | app.js:420-425 | a refresh while a fetch is pending starts nothing, and the pending page is merged into the emptied collection |
| Theme.LoadedTheme | app.js:52-59 | the saved theme when it is "light" or "dark", otherwise "dark" |
| Theme.NextTheme | app.js:60-65 | the result is "light" iff the current attribute is missing, empty or "dark" |
| Theme.ToggleTwice | app.js:60-65 | toggling twice from either theme returns to it |
| Theme.ReloadKeepsToggle | app.js:52-65 | the saved value is loaded back as the shown theme |
| Theme.ThemeSwitch.constructor | app.js:51-53 | no attribute yet; the saved value is what the browser holds |
| Theme.ThemeSwitch.LoadTheme | app.js:52-59 | the attribute becomes the loaded theme; the saved value is untouched |
| Theme.ThemeSwitch.ToggleTheme | app.js:60-65 | the attribute becomes the other theme and is saved |
| Theme.LoadThenToggleTwice | app.js:52-65 | loading and toggling twice shows and saves the loaded theme |
| TimeLabel.PastBuckets | app.js:107-122 | a past date shows "just now" under a minute, then whole minutes, hours or days |
| TimeLabel.SlightlyFutureIsOneMinute | app.js:109-119 | a date one second ahead reads as one minute in the future, because of the floors |
| TimeLabel.TimeAgo | app.js:107-122 | the placeholder is shown exactly when there is no date |

## Left out

- DOM construction and visibility (`renderCards`, `renderSkeleton`, `show`/`hide`, the DOM side of
  `fillSelect`, chip elements, event binding): presentation only. The view flags `errorShown`,
  `emptyShown` and `loadMoreDisabled` stand for it. The "All" option that `fillSelect` keeps first
  in each select is not part of the facet lists.
- `fetch`, `URL` and `res.json()`: foreign I/O, replaced by the `Response` value. The API key and
  the fixed country list in the endpoint are not modelled; only whether a `page` parameter is sent.
- `new Date(...)`, `Date.now()`, `toLocaleTimeString` and `Intl.RelativeTimeFormat`: host date
  and locale libraries. They are parameters; `timeAgo` is modelled up to the unit and the signed
  offset it would pass to the formatter.
- `crypto.randomUUID`: nondeterministic, so the fallback ids are supplied by the host. Their
  freshness is not enforced: a caller that normalises two responses with the same host gives a
  re-sent record without an id the same id twice, and the second copy is then dropped as
  already loaded, which the code never does.
- `localStorage` and the document attribute: only the two values are modelled.
- `debounce` / `setTimeout`: timer scheduling; the search handler is modelled as `SetFilter` at
  the moment the debounced call runs.
- `console.error` logging of the failure cause, and the text of the status and count labels.
- `showSkeleton` / `hideSkeleton`: dead code outside the widget's scope.
- The `raw` field of the normalised article: an opaque copy of the record.
- Text.Lower: ASCII letters only; full Unicode case mapping is not modelled.
- Text.Trim: ASCII white space only; Unicode spaces and line terminators are not removed.
- Text.Less: compares whole characters, where JavaScript compares UTF-16 code units; the two
  orders differ only for characters outside the Basic Multilingual Plane.
- Values.ArrayOrEmpty: array elements are modelled as strings only. Arrays holding numbers, null
  or objects are not modelled, so neither is `uniq` dropping falsy non-strings such as `0`.
- Collection.Cursor: a truthy non-string `nextPage` (a number, `true`, an object) is read as no
  cursor, where the code would keep it and send it as the `page` parameter.
- Html.EscapeHtml: the input is a string; the `String(str)` conversion of other
  values is not modelled.
- Interleavings of events with a pending fetch: the split into `BeginFetch` and `CompleteFetch`
  allows any of them, but only a second fetch and a refresh during a flight are stated as
  scenarios.
