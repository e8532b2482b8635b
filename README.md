# Canada holidays page: filter, paginate, and sync with the URL

This project models the logic inside the `Holidays` page of a small Next.js
application that lists Canadian public holidays (`pages/index.js`). The page
keeps five pieces of state: the stored holiday list, the selected year, the
selected province, the current page, and the search text. From that state it
derives what is shown:

- **Province filter.** This runs when a year's holidays arrive. With `"All"`
  the whole list is stored. With any other code, only the holidays whose
  `provinces` list has an entry with that `id` are stored. The `federal` flag
  is not consulted.
- **Search filter.** This runs on the stored (already province-filtered)
  list. It keeps the holidays whose lower-cased English or French name
  contains the lower-cased search text.
- **Pagination.** Pages hold 10 holidays. Page `p` is
  `slice((p-1)*10, p*10)` of the filtered list. The page count is
  `Math.ceil(n / 10)`.

The state changes in these ways:

- The year, province and search handlers set their own field and reset the
  page to 1. The year goes through `parseInt`.
- The Previous and Next buttons move the page by one. A button does nothing
  while it is disabled.
- Once the router is ready, the URL-read effect copies `year`, `province` and
  `search` into the state. It copies a key only when its value is present and
  truthy, so an empty value is ignored.
- The state is written back to the URL as a query with exactly the keys
  `year`, `province`, `page` and `search`.

Layout:

- `js_arrays.dfy` (module `JsArrays`): the ECMAScript meaning of `filter`,
  `some` and `slice`, with lemmas about `filter`. These include order
  preservation, multiplicities, concatenation, composing two filters, and
  narrowing the test.
- `js_strings.dfy` (module `JsStrings`): the three kinds of value the state
  holds (number, NaN, string) and JavaScript truthiness. It also has
  `toLowerCase`, `includes` (with an occurrence-based characterisation),
  `parseInt`, and the decimal rendering that the year selector offers.
- `holiday_view.dfy` (module `HolidayView`): the holiday record, the province
  and search filters, the page slice, and the page count.
- `holidays_page.dfy` (module `HolidaysPage`): the state as a value
  (`FilterState`), the events that change it, the transition function `Step`,
  and the write-back query. It also has the `Holidays` class, whose fields are
  the five state fields. Each of its methods is proved to produce
  `Step(old(State()), e)` for its event `e`.

## Model

| member | source | states |
|---|---|---|
| `JsArrays.Filter` | pages/index.js:39-41 | the result is no longer than the input, every kept element is in the input and passes the test, and every passing input element is kept |
| `JsArrays.Any` | pages/index.js:40 | `some` is true exactly when some element satisfies the test |
| `JsArrays.FilterIsSubsequence` | pages/index.js:93-96 | the filtered list is an order-preserving subsequence of the input |
| `JsArrays.FilterMultiplicity` | pages/index.js:93-96 | filtering keeps every copy of a passing element and no copy of a failing one |
| `JsArrays.FilterConcat` | pages/index.js:93-96 | filtering a concatenation is the concatenation of the filtered parts |
| `JsArrays.FilterKeepsAll` | pages/index.js:93-96 | a test that every element passes returns the list unchanged |
| `JsArrays.FilterSameTest` | pages/index.js:93-96 | two tests that accept the same elements give the same result |
| `JsArrays.FilterFilter` | pages/index.js:93-96 | two filters in a row equal one filter by the conjunction of the tests |
| `JsArrays.FilterNarrower` | pages/index.js:93-96 | a stricter test keeps a subsequence of what a looser test keeps, so never more elements |
| `JsArrays.RelativeIndex` | pages/index.js:101 | the position a `slice` argument denotes is never past the end of the list. A negative argument counts from the end in the body only: the page never passes one, because `PageAlwaysPositive` keeps the page at least 1 and `PageWindow` then gives the window outright |
| `JsArrays.Slice` | pages/index.js:101 | `slice` returns the contiguous run from the clamped start to the clamped end, with length `end - start` at most, and empty when the end is not after the start |
| `JsStrings.LowerChar` | pages/index.js:94-95 | capital letters of Basic Latin and Latin-1 move 32 code points up to their lower case, other characters stay, and the result is never a capital |
| `JsStrings.ToLower` | pages/index.js:94-95 | lower-casing keeps the length and lowers each character |
| `JsStrings.ToLowerSlice` | pages/index.js:94-95 | lower-casing commutes with taking a substring |
| `JsStrings.ToLowerIdempotent` | pages/index.js:94-95 | lower-casing twice equals lower-casing once |
| `JsStrings.Includes` | pages/index.js:94-95 | definition of `includes`: it never holds for a needle longer than the string and always holds for the empty needle; its meaning is stated by `IncludesIff`, `IncludesTransitive` and `IncludesToLower` |
| `JsStrings.IncludesIff` | pages/index.js:94-95 | `includes` holds exactly when the needle occurs at some position (both directions) |
| `JsStrings.IncludesTransitive` | pages/index.js:94-95 | a string that includes `mid` includes everything that `mid` includes |
| `JsStrings.IncludesToLower` | pages/index.js:94-95 | an occurrence survives lower-casing both strings |
| `JsStrings.OccursAtToLower` | pages/index.js:94-95 | an occurrence at a position is still an occurrence at that position after lower-casing both strings |
| `JsStrings.TrimStart` | pages/index.js:78 | `parseInt` drops a leading run of JavaScript white space and keeps the rest as a suffix: every dropped character is white space, and the rest does not start with white space |
| `JsStrings.DigitValue` | pages/index.js:78 | a decimal digit has its value 0 to 9, a letter of either case has 10 plus its place in the alphabet, and exactly the other characters have 36 (no digit in any radix) |
| `JsStrings.DigitRun` | pages/index.js:78 | the longest digit prefix: every character in it is a digit of the radix, and the next one is not |
| `JsStrings.ParseMagnitude` | pages/index.js:78 | the unsigned part of `parseInt` yields NaN or a non-negative number |
| `JsStrings.ParseInt` | pages/index.js:78 | `parseInt` yields a number or NaN, never a string |
| `JsStrings.DigitChar` | pages/index.js:141-143 | a digit character has the digit's value |
| `JsStrings.NatToString` | pages/index.js:141-143 | the decimal rendering of a year is a non-empty run of digits with no leading zero |
| `JsStrings.DigitsValueOfNatToString` | pages/index.js:78 | the digits of a rendered number denote that number |
| `JsStrings.DigitRunOfDigits` | pages/index.js:78 | the digit run of "digits followed by a non-digit" is exactly the digits |
| `JsStrings.MagnitudeOfDecimal` | pages/index.js:78 | the unsigned reader returns a rendered number and stops at the first non-digit |
| `JsStrings.TrimStartNoWhiteSpace` | pages/index.js:78 | a string that does not start with white space is not trimmed |
| `JsStrings.ParseIntOfDecimal` | pages/index.js:78 | `parseInt` reads back a rendered number and ignores trailing non-digits (unless they turn "0" into a hexadecimal prefix) |
| `JsStrings.ParseIntNegated` | pages/index.js:78 | a leading '-' negates the magnitude |
| `JsStrings.ParseIntOfNegatedDecimal` | pages/index.js:78 | `parseInt` of '-' followed by a rendered number is that number negated |
| `HolidayView.InProvince` | pages/index.js:40 | the province test holds exactly when the holiday's `provinces` list has an entry with that `id`; `ProvinceFilterSelects` and `FederalHolidayNeedsProvince` state what it does to the list |
| `HolidayView.ProvinceFilter` | pages/index.js:37-41 | the stored list is never longer than the fetched list |
| `HolidayView.ProvinceFilterSelects` | pages/index.js:37-41 | "All" stores the fetched list unchanged; a code stores the order-preserving subsequence of the holidays that list that code, with every copy of them and nothing else |
| `HolidayView.FederalHolidayNeedsProvince` | pages/index.js:39-41 | a federal holiday without an entry for the selected province is dropped |
| `HolidayView.MatchesSearch` | pages/index.js:94-95 | definition of the search test: the empty query matches every holiday; `MatchesSearchIff`, `SearchFilterSelects` and `SearchIgnoresQueryCase` state its behaviour |
| `HolidayView.MatchesSearchIff` | pages/index.js:94-95 | a holiday matches exactly when the lower-cased query occurs at some position of its lower-cased English name or of its lower-cased French name (both directions) |
| `HolidayView.SearchFilter` | pages/index.js:92-97 | the search result is never longer than the stored list |
| `HolidayView.SearchFilterSelects` | pages/index.js:92-97 | the search result is the order-preserving subsequence of the holidays whose lower-cased English or French name contains the lower-cased query, with every copy of them and nothing else |
| `HolidayView.EmptySearchKeepsAll` | pages/index.js:92-97 | an empty search keeps every holiday in order |
| `HolidayView.SearchIgnoresQueryCase` | pages/index.js:94-95 | a query and its lower-case form select the same holidays |
| `HolidayView.NarrowerSearchKeepsFewer` | pages/index.js:92-97 | a query that includes the old query keeps a subsequence of the old result, so never more holidays |
| `HolidayView.ProvinceThenSearch` | pages/index.js:37-97 | searching the province-filtered list is one filter of the fetched list by "in the province and matches the search" |
| `HolidayView.CurrentHolidays` | pages/index.js:99-101 | a page holds at most 10 holidays |
| `HolidayView.TotalPages` | pages/index.js:102 | the page count is the least count of 10-record pages that holds every record (the ceiling of n/10) |
| `HolidayView.PageWindow` | pages/index.js:99-101 | from page 1 on, page `p` is `filtered[(p-1)*10 .. min(p*10, n)]`, and is empty once `(p-1)*10 >= n` |
| `HolidayView.PageNonEmptyIff` | pages/index.js:99-102 | from page 1 on, a page is non-empty exactly when its number is at most the page count |
| `HolidayView.PagesUpToPrefix` | pages/index.js:99-101 | pages 1 to k, read in order, are the first `min(10k, n)` records |
| `HolidayView.PagesCoverAll` | pages/index.js:99-102 | pages 1 to the page count, read in order, are exactly the filtered list |
| `HolidayView.PaginationExamples` | pages/index.js:99-102 | 0 records give 0 pages; 23 give 3, with 3 on the third page; 12 give 2, with records 11 and 12 on the second page; 8 give 1 page holding all of them |
| `HolidaysPage.Initial` | pages/index.js:9-14 | the initial state lists nothing, has no pages, and its page is in range |
| `HolidaysPage.PreviousDisabled` | pages/index.js:194 | for a page from 1 to one past the last page, Previous is enabled exactly when the page before exists and lists records; `ButtonClickMovesPage` states the click |
| `HolidaysPage.NextDisabled` | pages/index.js:201 | from page 0 on, Next is enabled exactly when the page after the current one lists records; `ButtonClickMovesPage` states the click |
| `HolidaysPage.ApplyQuery` | pages/index.js:46-58 | the URL read never touches the page or the holidays and changes nothing before the router is ready; `QueryReadOverwritesGivenKeys` and `QueryReadIdempotent` state the rest |
| `HolidaysPage.Step` | pages/index.js:43-204 | definition of one event's effect: criteria changes set the page to 1, clicks move it by at most one, the URL read and a fetch completion keep it, and only a fetch completion replaces the holidays; `CriteriaChangeResetsPage`, `ButtonClickMovesPage`, `QueryReadOverwritesGivenKeys`, `FetchKeepsPage` and `StepKeepsPagePositive` state each case |
| `HolidaysPage.PushedQuery` | pages/index.js:72 | the write-back query has exactly the keys year, province, page and search, holding the year as stored, the province and search as strings, and the page as a number |
| `HolidaysPage.Stringify` | pages/index.js:70-73 | rendering the query to strings keeps its keys |
| `HolidaysPage.CriteriaChangeResetsPage` | pages/index.js:77-90 | each criteria handler sets its own field (the year through `parseInt`), sets the page to 1, and leaves the other criteria and the holidays alone |
| `HolidaysPage.YearSelectorStoresNumber` | pages/index.js:77-80 | a year offered by the selector as a decimal string is stored as that number |
| `HolidaysPage.ButtonClickMovesPage` | pages/index.js:191-204 | a click changes only the page. Previous decrements it exactly when it is not 1; Next increments it exactly when it is below the page count |
| `HolidaysPage.ClickKeepsPageInRange` | pages/index.js:191-204 | from a page in `[1, max(1, page count)]`, a click keeps the page in that range |
| `HolidaysPage.ClicksKeepPageInRange` | pages/index.js:191-204 | any sequence of clicks keeps an in-range page in range |
| `HolidaysPage.ClicksAfterCriteriaChange` | pages/index.js:77-204 | after a criteria change followed by any clicks, the page is in range |
| `HolidaysPage.StepKeepsPagePositive` | pages/index.js:191-194 | no event takes a page of at least 1 below 1 |
| `HolidaysPage.RunKeepsPagePositive` | pages/index.js:191-194 | no sequence of events takes a page of at least 1 below 1 |
| `HolidaysPage.PageAlwaysPositive` | pages/index.js:12 | from the initial state, the page stays at least 1 whatever happens |
| `HolidaysPage.QueryReadOverwritesGivenKeys` | pages/index.js:46-58 | before the router is ready nothing changes. After that, year (as a string), province and search are overwritten exactly for the keys given; the page and holidays are untouched |
| `HolidaysPage.QueryReadIdempotent` | pages/index.js:46-58 | reading the same URL twice equals reading it once |
| `HolidaysPage.WriteThenRead` | pages/index.js:46-72 | reading back the written query restores non-empty province and search, and sets the year to its text when that text is non-empty. It never restores the page |
| `HolidaysPage.WriteThenReadSameState` | pages/index.js:46-72 | the round trip from one state keeps province, search, page and holidays |
| `HolidaysPage.FetchKeepsPage` | pages/index.js:37-43 | a fetch result replaces only the holidays, with their province-filtered list. The page is not clamped, so a page past the new last page shows nothing and has Next disabled |
| `HolidaysPage.Holidays.constructor` | pages/index.js:9-14 | the component starts in the initial state |
| `HolidaysPage.Holidays.SetFetchedHolidays` | pages/index.js:37-43 | stores the fetched list filtered by the fetch's province; the rest of the state is as `Step` says |
| `HolidaysPage.Holidays.ReadRouterQuery` | pages/index.js:46-58 | applies the URL query as `Step` says, leaving the page and holidays unchanged |
| `HolidaysPage.Holidays.HandleYearChange` | pages/index.js:77-80 | stores `parseInt` of the value as the year and sets the page to 1 |
| `HolidaysPage.Holidays.HandleProvinceChange` | pages/index.js:82-85 | stores the province and sets the page to 1 |
| `HolidaysPage.Holidays.HandleSearchChange` | pages/index.js:87-90 | stores the search text and sets the page to 1 |
| `HolidaysPage.Holidays.ClickPrevious` | pages/index.js:191-197 | moves the page back by one unless it is 1, never below 1 from a page of at least 1 |
| `HolidaysPage.Holidays.ClickNext` | pages/index.js:198-204 | moves the page forward by one only while it is below the page count, so never past the last page |

## Behaviour of the code worth knowing

- The page is never read from the URL. A `page` in the URL is ignored, and
  a URL round trip does not restore it (`WriteThenRead`).
- The current page is never clamped into `[1, totalPages]`. After a fetch
  that shrinks the list, the page can point past the last page and show
  nothing (`FetchKeepsPage`).
- Malformed URL values are not replaced by defaults. A URL year stays a
  string. An empty value is ignored only because it is falsy.
- A specific province never includes federal holidays that lack that
  province's id.
- The search text is not trimmed.
- Nothing discards a stale fetch result.

## Left out

- The network request and JSON decoding (`pages/index.js:32-34`) are I/O.
  The fetched list is a parameter of `HolidaysFetched` and
  `SetFetchedHolidays`.
- The model does not capture which province value the fetch closure captured
  (`pages/index.js:61-65` reads the state of the render in which the effect
  fires). That depends on React's effect scheduling, so the province is a
  parameter of the fetch-completion event.
- `router.isReady`, `router.push`, and the order in which effects fire
  (`pages/index.js:46-75`) are Next.js/React scheduling. Readiness is a
  parameter of the URL-read event. The router's rendering of query values to
  strings is a parameter of `Stringify`.
- Concurrent fetches and stale results are not modelled. The code has no
  guard, and each completion overwrites the list.
- The JSX markup, the styles, the year `<select>` options, the `federal`
  display column and the `provinces` constant table (`pages/index.js:16-30`,
  `104-207` apart from the buttons) are presentation.
- A URL key given more than once (which the router turns into an array) is
  not modelled. URL values are single strings.
- `JsStrings.LowerChar`: lowers only Basic Latin and Latin-1 capitals, which
  covers English and French holiday names. Other Unicode case mappings of
  `toLowerCase` are not modelled.
- `HolidaysPage.WriteThenRead` and `HolidaysPage.WriteThenReadSameState` assume that the router's URL encoding and decoding return every string unchanged (`text(Str(str)) == str`); percent-encoding is not modelled.
- `JsStrings.ParseInt`: numbers are unbounded integers. Loss of precision
  above 2^53, `Infinity` for very long digit runs, and the sign of `-0` are
  not modelled.
