/** What the holidays page shows, derived from its state: the holidays of the
    selected province (applied to a year's fetched list), the ones whose name
    matches the search text, and the ten of them on the current page. */
module HolidayView {
  import opened JsArrays
  import opened JsStrings

  /** An entry of a holiday's `provinces` list; only its `id` is consulted. */
  datatype ProvinceRef = ProvinceRef(id: string)

  /** A holiday record as the remote source returns it. */
  datatype Holiday = Holiday(
    id: int,
    date: string,
    nameEn: string,
    nameFr: string,
    federal: bool,
    provinces: seq<ProvinceRef>)

  /** The province selector's value that means "no province restriction". */
  const AllProvinces := "All"

  /** The fixed page size. */
  const HolidaysPerPage := 10

  // ---------------------------------------------------------------------
  // Province filter
  // ---------------------------------------------------------------------

  /** `pr => pr.id === code` */
  function HasId(code: string): ProvinceRef -> bool
  {
    (pr: ProvinceRef) => pr.id == code
  }

  /** A holiday lists the province `code` among its provinces. */
  ghost predicate ListsProvince(h: Holiday, code: string)
  {
    exists j :: 0 <= j < |h.provinces| && h.provinces[j].id == code
  }

  /** `holiday => holiday.provinces.some(pr => pr.id === code)`: accepts
      exactly the holidays that list `code`, whatever their `federal` flag. */
  function InProvince(code: string): (inProvince: Holiday -> bool)
    ensures forall h :: inProvince(h) <==> ListsProvince(h, code)
  {
    (h: Holiday) => Any(h.provinces, HasId(code))
  }

  /** The list stored after a fetch: everything for "All", otherwise the
      holidays whose `provinces` contain an entry with that id. */
  function ProvinceFilter(fetched: seq<Holiday>, province: string): (r: seq<Holiday>)
    ensures |r| <= |fetched|
  {
    if province == AllProvinces then fetched
    else Filter(fetched, InProvince(province))
  }

  /** With "All" the stored list is the fetched list; with a code it is the
      order-preserving subsequence of the holidays that list that code, every
      copy of them, and nothing else. The `federal` flag plays no part. */
  lemma ProvinceFilterSelects(fetched: seq<Holiday>, province: string)
    ensures province == AllProvinces ==> ProvinceFilter(fetched, province) == fetched
    ensures province != AllProvinces ==> IsSubsequence(ProvinceFilter(fetched, province), fetched)
    ensures province != AllProvinces ==>
      forall h :: multiset(ProvinceFilter(fetched, province))[h]
               == if ListsProvince(h, province) then multiset(fetched)[h] else 0
  {
    if province != AllProvinces {
      FilterIsSubsequence(fetched, InProvince(province));
      forall h
        ensures multiset(ProvinceFilter(fetched, province))[h]
             == if ListsProvince(h, province) then multiset(fetched)[h] else 0
      {
        FilterMultiplicity(fetched, InProvince(province), h);
        assert InProvince(province)(h) == ListsProvince(h, province);
      }
    }
  }

  /** A federal holiday is not exempt: without an entry for the selected
      province it is dropped. */
  lemma FederalHolidayNeedsProvince(fetched: seq<Holiday>, province: string, h: Holiday)
    requires province != AllProvinces
    requires h.federal && !ListsProvince(h, province)
    ensures h !in ProvinceFilter(fetched, province)
  {
    ProvinceFilterSelects(fetched, province);
    assert multiset(ProvinceFilter(fetched, province))[h] == 0;
  }

  // ---------------------------------------------------------------------
  // Search filter
  // ---------------------------------------------------------------------

  /** The lower-cased English or French name includes the lower-cased
      query; the empty query is included in every name. */
  predicate MatchesSearch(h: Holiday, query: string): (b: bool)
    ensures query == "" ==> b
  {
    Includes(ToLower(h.nameEn), ToLower(query)) || Includes(ToLower(h.nameFr), ToLower(query))
  }

  /** A holiday matches exactly when the lower-cased query occurs at some
      position of its lower-cased English or French name. */
  lemma MatchesSearchIff(h: Holiday, query: string)
    ensures MatchesSearch(h, query) <==>
      (exists i :: OccursAt(ToLower(h.nameEn), ToLower(query), i)) ||
      (exists i :: OccursAt(ToLower(h.nameFr), ToLower(query), i))
  {
    NameMatchIff(h.nameEn, query);
    NameMatchIff(h.nameFr, query);
  }

  lemma NameMatchIff(name: string, query: string)
    ensures Includes(ToLower(name), ToLower(query)) <==> exists i :: OccursAt(ToLower(name), ToLower(query), i)
  {
    IncludesIff(ToLower(name), ToLower(query));
  }

  function Matches(query: string): Holiday -> bool
  {
    (h: Holiday) => MatchesSearch(h, query)
  }

  /** `filteredHolidays`: the stored holidays whose name matches the search. */
  function SearchFilter(holidays: seq<Holiday>, query: string): (r: seq<Holiday>)
    ensures |r| <= |holidays|
  {
    Filter(holidays, Matches(query))
  }

  /** The search result is the order-preserving subsequence of the holidays
      whose English or French name contains the query, ignoring case: every
      copy of those, and nothing else. */
  lemma SearchFilterSelects(holidays: seq<Holiday>, query: string)
    ensures IsSubsequence(SearchFilter(holidays, query), holidays)
    ensures forall h :: multiset(SearchFilter(holidays, query))[h]
                     == if MatchesSearch(h, query) then multiset(holidays)[h] else 0
  {
    FilterIsSubsequence(holidays, Matches(query));
    forall h
      ensures multiset(SearchFilter(holidays, query))[h]
           == if MatchesSearch(h, query) then multiset(holidays)[h] else 0
    {
      FilterMultiplicity(holidays, Matches(query), h);
    }
  }

  /** An empty search keeps every holiday, in order. */
  lemma EmptySearchKeepsAll(holidays: seq<Holiday>)
    ensures SearchFilter(holidays, "") == holidays
  {
    forall i | 0 <= i < |holidays|
      ensures Matches("")(holidays[i])
    {
      assert MatchesSearch(holidays[i], "");
    }
    FilterKeepsAll(holidays, Matches(""));
  }

  /** Case does not matter in the query. */
  lemma SearchIgnoresQueryCase(holidays: seq<Holiday>, query: string)
    ensures SearchFilter(holidays, query) == SearchFilter(holidays, ToLower(query))
  {
    ToLowerIdempotent(query);
    FilterSameTest(holidays, Matches(query), Matches(ToLower(query)));
  }

  /** Narrowing the search (a longer query that includes the old one) keeps a
      subsequence of the old result, so never more holidays. */
  lemma NarrowerSearchKeepsFewer(holidays: seq<Holiday>, query: string, narrower: string)
    requires Includes(narrower, query)
    ensures SearchFilter(holidays, narrower) == SearchFilter(SearchFilter(holidays, query), narrower)
    ensures |SearchFilter(holidays, narrower)| <= |SearchFilter(holidays, query)|
  {
    forall h | MatchesSearch(h, narrower)
      ensures MatchesSearch(h, query)
    {
      IncludesToLower(narrower, query);
      if Includes(ToLower(h.nameEn), ToLower(narrower)) {
        IncludesTransitive(ToLower(h.nameEn), ToLower(narrower), ToLower(query));
      } else {
        IncludesTransitive(ToLower(h.nameFr), ToLower(narrower), ToLower(query));
      }
    }
    FilterNarrower(holidays, Matches(narrower), Matches(query));
  }

  /** The search runs on the province-filtered list, so what is listed is the
      fetched holidays that are in the province and match the search. */
  lemma ProvinceThenSearch(fetched: seq<Holiday>, province: string, query: string)
    requires province != AllProvinces
    ensures SearchFilter(ProvinceFilter(fetched, province), query)
         == Filter(fetched, Both(InProvince(province), Matches(query)))
  {
    FilterFilter(fetched, InProvince(province), Matches(query));
  }

  // ---------------------------------------------------------------------
  // Pagination
  // ---------------------------------------------------------------------

  /** `currentHolidays`: `filtered.slice(p * 10 - 10, p * 10)`. */
  function CurrentHolidays(filtered: seq<Holiday>, currentPage: int): (r: seq<Holiday>)
    ensures |r| <= HolidaysPerPage
  {
    Slice(filtered, currentPage * HolidaysPerPage - HolidaysPerPage, currentPage * HolidaysPerPage)
  }

  /** `Math.ceil(count / 10)`: the least number of pages of ten that hold
      `count` records. */
  function TotalPages(count: nat): (r: nat)
    ensures r * HolidaysPerPage >= count
    ensures (r - 1) * HolidaysPerPage < count
  {
    (count + HolidaysPerPage - 1) / HolidaysPerPage
  }

  /** From page 1 on, the page shows the records from `(p-1)*10` up to
      `p*10` or the end, and nothing once `(p-1)*10` reaches the end. */
  lemma PageWindow(filtered: seq<Holiday>, currentPage: int)
    requires currentPage >= 1
    ensures var first := (currentPage - 1) * HolidaysPerPage;
            var last := currentPage * HolidaysPerPage;
            CurrentHolidays(filtered, currentPage)
            == if first < |filtered| then filtered[first..if last < |filtered| then last else |filtered|]
               else []
  {
  }

  /** From page 1 on, the page is non-empty exactly when it is one of the
      `TotalPages` pages. */
  lemma PageNonEmptyIff(filtered: seq<Holiday>, currentPage: int)
    requires currentPage >= 1
    ensures CurrentHolidays(filtered, currentPage) != [] <==> currentPage <= TotalPages(|filtered|)
  {
    PageWindow(filtered, currentPage);
    var t := TotalPages(|filtered|);
    if currentPage <= t {
      assert (currentPage - 1) * HolidaysPerPage <= (t - 1) * HolidaysPerPage;
    } else {
      assert (currentPage - 1) * HolidaysPerPage >= t * HolidaysPerPage;
    }
  }

  /** The pages 1 to `k`, one after the other. */
  ghost function PagesUpTo(filtered: seq<Holiday>, k: nat): seq<Holiday>
  {
    if k == 0 then [] else PagesUpTo(filtered, k - 1) + CurrentHolidays(filtered, k)
  }

  lemma {:induction false} PagesUpToPrefix(filtered: seq<Holiday>, k: nat)
    ensures PagesUpTo(filtered, k)
         == filtered[..if k * HolidaysPerPage < |filtered| then k * HolidaysPerPage else |filtered|]
  {
    if k > 0 {
      PagesUpToPrefix(filtered, k - 1);
      PageWindow(filtered, k);
      var n := |filtered|;
      var first := (k - 1) * HolidaysPerPage;
      var last := k * HolidaysPerPage;
      if first < n {
        var end := if last < n then last else n;
        assert filtered[..first] + filtered[first..end] == filtered[..end];
      }
    }
  }

  /** Read one after the other, the pages 1 to `TotalPages` list every
      filtered record once, in order. */
  lemma PagesCoverAll(filtered: seq<Holiday>)
    ensures PagesUpTo(filtered, TotalPages(|filtered|)) == filtered
  {
    PagesUpToPrefix(filtered, TotalPages(|filtered|));
  }

  /** No records make no pages; 23 records make three, the third holding
      three; 12 make two, the second holding records 11 and 12; 8 make one
      page holding all of them. */
  lemma PaginationExamples(filtered: seq<Holiday>)
    ensures TotalPages(0) == 0 && CurrentHolidays([], 1) == []
    ensures |filtered| == 23 ==> TotalPages(23) == 3 && |CurrentHolidays(filtered, 3)| == 3
    ensures |filtered| == 12 ==> TotalPages(12) == 2 && CurrentHolidays(filtered, 2) == filtered[10..12]
    ensures |filtered| == 8 ==> TotalPages(8) == 1 && CurrentHolidays(filtered, 1) == filtered
  {
    PageWindow(filtered, 2);
    PageWindow(filtered, 3);
    PageWindow(filtered, 1);
  }
}
