/** The page's state and how it changes: five state fields, the three
    criteria handlers, the Previous/Next buttons, the effect that copies the
    URL query into the state, the stored result of a fetch, and the query
    object written back to the URL. */
module HolidaysPage {
  import opened JsStrings
  import opened HolidayView

  /** The component's five state fields. `selectedYear` starts as a number,
      becomes a string when read from the URL, and NaN when `parseInt` finds
      no digits. */
  datatype FilterState = FilterState(
    holidays: seq<Holiday>,
    selectedYear: JsValue,
    selectedProvince: string,
    currentPage: int,
    searchQuery: string)

  /** The initial values of the state hooks: nothing is listed yet, there
      are no pages, and the page is in range. */
  function Initial(): (s: FilterState)
    ensures PageInRange(s) && PageCount(s) == 0 && Visible(s) == []
  {
    FilterState([], Number(2024), AllProvinces, 1, "")
  }

  // ---------------------------------------------------------------------
  // What a render derives from the state
  // ---------------------------------------------------------------------

  function FilteredHolidays(s: FilterState): seq<Holiday>
  {
    SearchFilter(s.holidays, s.searchQuery)
  }

  function Visible(s: FilterState): seq<Holiday>
  {
    CurrentHolidays(FilteredHolidays(s), s.currentPage)
  }

  function PageCount(s: FilterState): nat
  {
    TotalPages(|FilteredHolidays(s)|)
  }

  /** `disabled` of the Previous button. For a page between 1 and one past
      the last page, Previous is enabled exactly when the page before it
      exists and lists records. */
  predicate PreviousDisabled(s: FilterState): (b: bool)
    ensures 1 <= s.currentPage <= PageCount(s) + 1 ==>
      (!b <==> s.currentPage >= 2 && CurrentHolidays(FilteredHolidays(s), s.currentPage - 1) != [])
  {
    // The condition is `currentPage == 1`; the `if` only lets the body
    // call `PageNonEmptyIff` where its precondition holds.
    if s.currentPage >= 2 then
      PageNonEmptyIff(FilteredHolidays(s), s.currentPage - 1);
      s.currentPage == 1
    else s.currentPage == 1
  }

  /** `disabled` of the Next button. From page 0 on, Next is enabled exactly
      when the page after the current one lists records. */
  predicate NextDisabled(s: FilterState): (b: bool)
    ensures s.currentPage >= 0 ==>
      (!b <==> CurrentHolidays(FilteredHolidays(s), s.currentPage + 1) != [])
  {
    // The condition is `currentPage >= totalPages`; the `if` only lets the
    // body call `PageNonEmptyIff` where its precondition holds.
    if s.currentPage >= 0 then
      PageNonEmptyIff(FilteredHolidays(s), s.currentPage + 1);
      s.currentPage >= PageCount(s)
    else s.currentPage >= PageCount(s)
  }

  // ---------------------------------------------------------------------
  // Events and transitions
  // ---------------------------------------------------------------------

  /** What can happen to the page. A click on a disabled button is not
      delivered by the browser, so it changes nothing. `HolidaysFetched`
      carries the province the fetch was issued with. */
  datatype Event =
    | YearSelected(value: string)
    | ProvinceSelected(value: string)
    | SearchTyped(value: string)
    | PreviousClicked
    | NextClicked
    | QueryRead(ready: bool, query: map<string, string>)
    | HolidaysFetched(fetched: seq<Holiday>, province: string)

  predicate IsCriteriaChange(e: Event)
  {
    e.YearSelected? || e.ProvinceSelected? || e.SearchTyped?
  }

  predicate IsButtonClick(e: Event)
  {
    e.PreviousClicked? || e.NextClicked?
  }

  /** A URL key counts as given when it is present with a truthy value,
      that is, a non-empty string. */
  predicate Given(query: map<string, string>, key: string)
  {
    key in query && Truthy(Str(query[key]))
  }

  /** The URL-read effect: once the router is ready, each of year, province
      and search is overwritten by its URL value when that is given. */
  function ApplyQuery(s: FilterState, ready: bool, query: map<string, string>): (r: FilterState)
    ensures r.currentPage == s.currentPage && r.holidays == s.holidays
    ensures !ready ==> r == s
  {
    if !ready then s
    else s.(
      selectedYear := if Given(query, "year") then Str(query["year"]) else s.selectedYear,
      selectedProvince := if Given(query, "province") then query["province"] else s.selectedProvince,
      searchQuery := if Given(query, "search") then query["search"] else s.searchQuery)
  }

  /** The state after one event. Criteria changes set the page to 1, clicks
      move it by at most one, and the URL read and fetch completion leave
      it alone; only a fetch completion touches the stored holidays. */
  function Step(s: FilterState, e: Event): (r: FilterState)
    ensures IsCriteriaChange(e) ==> r.currentPage == 1
    ensures IsButtonClick(e) ==> s.currentPage - 1 <= r.currentPage <= s.currentPage + 1
    ensures e.QueryRead? || e.HolidaysFetched? ==> r.currentPage == s.currentPage
    ensures !e.HolidaysFetched? ==> r.holidays == s.holidays
  {
    match e
    case YearSelected(v) => s.(selectedYear := ParseInt(v), currentPage := 1)
    case ProvinceSelected(v) => s.(selectedProvince := v, currentPage := 1)
    case SearchTyped(v) => s.(searchQuery := v, currentPage := 1)
    case PreviousClicked => if PreviousDisabled(s) then s else s.(currentPage := s.currentPage - 1)
    case NextClicked => if NextDisabled(s) then s else s.(currentPage := s.currentPage + 1)
    case QueryRead(ready, q) => ApplyQuery(s, ready, q)
    case HolidaysFetched(f, p) => s.(holidays := ProvinceFilter(f, p))
  }

  /** The state after a sequence of events. */
  function Run(s: FilterState, events: seq<Event>): FilterState
    decreases |events|
  {
    if events == [] then s else Run(Step(s, events[0]), events[1..])
  }

  /** The query object pushed to the router. */
  function PushedQuery(s: FilterState): (q: map<string, JsValue>)
    ensures q.Keys == {"year", "province", "page", "search"}
    ensures q["year"] == s.selectedYear && q["province"] == Str(s.selectedProvince)
    ensures q["page"] == Number(s.currentPage) && q["search"] == Str(s.searchQuery)
  {
    map["year" := s.selectedYear, "province" := Str(s.selectedProvince),
        "page" := Number(s.currentPage), "search" := Str(s.searchQuery)]
  }

  /** The query as strings, by a given rendering of each value (the router
      performs this step). */
  function Stringify(q: map<string, JsValue>, text: JsValue -> string): (r: map<string, string>)
    ensures r.Keys == q.Keys
  {
    map k | k in q :: text(q[k])
  }

  // ---------------------------------------------------------------------
  // Properties of the transitions
  // ---------------------------------------------------------------------

  /** Each criteria handler sets its own field (the year through
      `parseInt`), sets the page to 1, and leaves the other criteria and the
      stored holidays alone. */
  lemma CriteriaChangeResetsPage(s: FilterState, e: Event)
    requires IsCriteriaChange(e)
    ensures Step(s, e).currentPage == 1 && Step(s, e).holidays == s.holidays
    ensures Step(s, e).selectedYear == if e.YearSelected? then ParseInt(e.value) else s.selectedYear
    ensures Step(s, e).selectedProvince == if e.ProvinceSelected? then e.value else s.selectedProvince
    ensures Step(s, e).searchQuery == if e.SearchTyped? then e.value else s.searchQuery
  {
  }

  /** A year chosen in the selector, whose options are decimal numbers, is
      stored as that number. */
  lemma YearSelectorStoresNumber(s: FilterState, year: nat)
    ensures Step(s, YearSelected(NatToString(year))).selectedYear == Number(year)
  {
    ParseIntOfDecimal(year, []);
    assert NatToString(year) + [] == NatToString(year);
  }

  /** A button click changes only the page, and by exactly one when the
      button is enabled: Previous when the page is not 1, Next when it is
      below the page count. */
  lemma ButtonClickMovesPage(s: FilterState, e: Event)
    requires IsButtonClick(e)
    ensures var r := Step(s, e);
      r.holidays == s.holidays && r.selectedYear == s.selectedYear &&
      r.selectedProvince == s.selectedProvince && r.searchQuery == s.searchQuery
    ensures e.PreviousClicked? ==>
      Step(s, e).currentPage == if s.currentPage != 1 then s.currentPage - 1 else s.currentPage
    ensures e.NextClicked? ==>
      Step(s, e).currentPage == if s.currentPage < PageCount(s) then s.currentPage + 1 else s.currentPage
  {
  }

  /** The page lies between 1 and the page count, or is 1 when there are no
      pages. */
  predicate PageInRange(s: FilterState)
  {
    1 <= s.currentPage <= (if PageCount(s) == 0 then 1 else PageCount(s))
  }

  /** Button clicks keep a page that is in range in range: Previous never
      goes below 1 and Next never past the last page. */
  lemma ClickKeepsPageInRange(s: FilterState, e: Event)
    requires IsButtonClick(e) && PageInRange(s)
    ensures PageInRange(Step(s, e))
  {
    ButtonClickMovesPage(s, e);
    assert FilteredHolidays(Step(s, e)) == FilteredHolidays(s);
  }

  /** A criteria change followed by any number of clicks leaves the page in
      range. */
  lemma {:induction false} ClicksAfterCriteriaChange(s: FilterState, e: Event, clicks: seq<Event>)
    requires IsCriteriaChange(e)
    requires forall i :: 0 <= i < |clicks| ==> IsButtonClick(clicks[i])
    ensures PageInRange(Run(s, [e] + clicks))
  {
    CriteriaChangeResetsPage(s, e);
    assert ([e] + clicks)[1..] == clicks;
    ClicksKeepPageInRange(Step(s, e), clicks);
  }

  lemma {:induction false} ClicksKeepPageInRange(s: FilterState, clicks: seq<Event>)
    requires PageInRange(s)
    requires forall i :: 0 <= i < |clicks| ==> IsButtonClick(clicks[i])
    ensures PageInRange(Run(s, clicks))
    decreases |clicks|
  {
    if clicks != [] {
      ClickKeepsPageInRange(s, clicks[0]);
      ClicksKeepPageInRange(Step(s, clicks[0]), clicks[1..]);
    }
  }

  /** No event takes a page of at least 1 below 1. */
  lemma StepKeepsPagePositive(s: FilterState, e: Event)
    requires s.currentPage >= 1
    ensures Step(s, e).currentPage >= 1
  {
  }

  /** From the initial state, whatever happens, the page is at least 1. */
  lemma {:induction false} PageAlwaysPositive(events: seq<Event>)
    ensures Run(Initial(), events).currentPage >= 1
  {
    RunKeepsPagePositive(Initial(), events);
  }

  lemma {:induction false} RunKeepsPagePositive(s: FilterState, events: seq<Event>)
    requires s.currentPage >= 1
    ensures Run(s, events).currentPage >= 1
    decreases |events|
  {
    if events != [] {
      StepKeepsPagePositive(s, events[0]);
      RunKeepsPagePositive(Step(s, events[0]), events[1..]);
    }
  }

  /** Reading the URL overwrites year, province and search exactly for the
      keys given, never touches the page or the holidays, and does nothing
      before the router is ready. */
  lemma QueryReadOverwritesGivenKeys(s: FilterState, ready: bool, query: map<string, string>)
    ensures var r := Step(s, QueryRead(ready, query));
      r.currentPage == s.currentPage && r.holidays == s.holidays
    ensures !ready ==> Step(s, QueryRead(ready, query)) == s
    ensures ready ==> var r := Step(s, QueryRead(ready, query));
      (r.selectedYear == if Given(query, "year") then Str(query["year"]) else s.selectedYear) &&
      (r.selectedProvince == if Given(query, "province") then query["province"] else s.selectedProvince) &&
      (r.searchQuery == if Given(query, "search") then query["search"] else s.searchQuery)
  {
  }

  /** Reading the same URL twice is reading it once. */
  lemma QueryReadIdempotent(s: FilterState, ready: bool, query: map<string, string>)
    ensures ApplyQuery(ApplyQuery(s, ready, query), ready, query) == ApplyQuery(s, ready, query)
  {
  }

  /** Writing the state to the URL and reading it back (with a rendering
      that leaves strings as they are) restores province and search, turns
      the year into its text unless that text is empty, and leaves the page
      and holidays as they were: the page written to the URL is never read. */
  lemma WriteThenRead(s: FilterState, t: FilterState, text: JsValue -> string)
    requires forall str :: text(Str(str)) == str
    ensures var r := ApplyQuery(t, true, Stringify(PushedQuery(s), text));
      (r.selectedProvince == if s.selectedProvince != "" then s.selectedProvince else t.selectedProvince) &&
      (r.searchQuery == if s.searchQuery != "" then s.searchQuery else t.searchQuery) &&
      (r.selectedYear == if text(s.selectedYear) != "" then Str(text(s.selectedYear)) else t.selectedYear) &&
      r.currentPage == t.currentPage && r.holidays == t.holidays
  {
    var q := Stringify(PushedQuery(s), text);
    assert q["province"] == s.selectedProvince;
    assert q["search"] == s.searchQuery;
    assert q["year"] == text(s.selectedYear);
  }

  /** The round trip from the same state keeps province, search, page and
      holidays. */
  lemma WriteThenReadSameState(s: FilterState, text: JsValue -> string)
    requires forall str :: text(Str(str)) == str
    ensures var r := ApplyQuery(s, true, Stringify(PushedQuery(s), text));
      r.selectedProvince == s.selectedProvince && r.searchQuery == s.searchQuery &&
      r.currentPage == s.currentPage && r.holidays == s.holidays
  {
    WriteThenRead(s, s, text);
  }

  /** A fetch result replaces the stored holidays by its province-filtered
      list and changes nothing else; the page is not clamped, so a page past
      the new last page shows nothing. */
  lemma FetchKeepsPage(s: FilterState, fetched: seq<Holiday>, province: string)
    ensures var r := Step(s, HolidaysFetched(fetched, province));
      r.holidays == ProvinceFilter(fetched, province) &&
      r.currentPage == s.currentPage && r.selectedYear == s.selectedYear &&
      r.selectedProvince == s.selectedProvince && r.searchQuery == s.searchQuery
    ensures var r := Step(s, HolidaysFetched(fetched, province));
      s.currentPage > PageCount(r) >= 0 && s.currentPage >= 1 ==> Visible(r) == [] && NextDisabled(r)
  {
    var r := Step(s, HolidaysFetched(fetched, province));
    if s.currentPage > PageCount(r) && s.currentPage >= 1 {
      PageNonEmptyIff(FilteredHolidays(r), r.currentPage);
    }
  }

  // ---------------------------------------------------------------------
  // The component
  // ---------------------------------------------------------------------

  /** The `Holidays` component's state and the handlers that update it. */
  class Holidays {
    var holidays: seq<Holiday>
    var selectedYear: JsValue
    var selectedProvince: string
    var currentPage: int
    var searchQuery: string

    function State(): FilterState
      reads this
    {
      FilterState(holidays, selectedYear, selectedProvince, currentPage, searchQuery)
    }

    constructor ()
      ensures State() == Initial()
    {
      holidays := [];
      selectedYear := Number(2024);
      selectedProvince := AllProvinces;
      currentPage := 1;
      searchQuery := "";
    }

    /** The fetch's completion: store the fetched list filtered by the
        province the fetch was issued with. */
    method SetFetchedHolidays(fetched: seq<Holiday>, province: string)
      modifies this
      ensures State() == Step(old(State()), HolidaysFetched(fetched, province))
      ensures holidays == ProvinceFilter(fetched, province)
    {
      holidays := ProvinceFilter(fetched, province);
    }

    /** The URL-read effect. */
    method ReadRouterQuery(ready: bool, query: map<string, string>)
      modifies this
      ensures State() == Step(old(State()), QueryRead(ready, query))
      ensures currentPage == old(currentPage) && holidays == old(holidays)
    {
      if ready {
        if Given(query, "year") {
          selectedYear := Str(query["year"]);
        }
        if Given(query, "province") {
          selectedProvince := query["province"];
        }
        if Given(query, "search") {
          searchQuery := query["search"];
        }
      }
    }

    method HandleYearChange(value: string)
      modifies this
      ensures State() == Step(old(State()), YearSelected(value))
      ensures selectedYear == ParseInt(value) && currentPage == 1
    {
      selectedYear := ParseInt(value);
      currentPage := 1;
    }

    method HandleProvinceChange(value: string)
      modifies this
      ensures State() == Step(old(State()), ProvinceSelected(value))
      ensures selectedProvince == value && currentPage == 1
    {
      selectedProvince := value;
      currentPage := 1;
    }

    method HandleSearchChange(value: string)
      modifies this
      ensures State() == Step(old(State()), SearchTyped(value))
      ensures searchQuery == value && currentPage == 1
    {
      searchQuery := value;
      currentPage := 1;
    }

    /** A click on Previous, delivered only while it is enabled. */
    method ClickPrevious()
      modifies this
      ensures State() == Step(old(State()), PreviousClicked)
      ensures old(currentPage) >= 1 ==> currentPage >= 1
    {
      if currentPage != 1 {
        currentPage := currentPage - 1;
      }
    }

    /** A click on Next, delivered only while it is enabled. */
    method ClickNext()
      modifies this
      ensures State() == Step(old(State()), NextClicked)
      ensures old(currentPage) < PageCount(old(State())) ==> currentPage <= PageCount(State())
    {
      var totalPages := TotalPages(|SearchFilter(holidays, searchQuery)|);
      if currentPage < totalPages {
        currentPage := currentPage + 1;
      }
    }
  }
}
