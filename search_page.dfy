/** The search page (src/pages/Search.tsx): the criteria being edited, whether
    a search has run, and the `q` parameter of the address. Searching is the
    store's `search`; the page decides when it runs and which list it shows. */
module SearchPage {
  import opened Wrappers
  import opened Text
  import opened Types
  import opened ResearchSearch
  import opened ResearchStore
  import opened QuickFilters

  /** The criteria of a fresh page, or after "Clear", with the query `q`. */
  function DefaultFilters(q: string): (f: SearchFilters)
    ensures f.query == q && f.title == "" && f.keywords == "" && f.author == "" && f.abstractText == ""
    ensures f.sortBy == Relevance && f.strand == All && f.researchLabel == All && f.academicYear == All
  {
    SearchFilters(q, "", "", "", "", Relevance, All, All, All)
  }

  /** The guard of `handleSubmit`: a query that is not blank, an advanced
      field that is not empty, or a quick filter. */
  predicate SubmitAllowed(f: SearchFilters)
  {
    !AllSpace(f.query) || f.title != "" || f.keywords != "" || f.author != "" || f.abstractText != ""
    || HasActiveFilters(f)
  }

  function Flag(b: bool): nat
  {
    if b then 1 else 0
  }

  /** The badge on the "Advanced" button: how many of the quick filters and
      advanced fields are set; the main query is not counted. */
  function ActiveFilterCount(f: SearchFilters): (n: nat)
    ensures n <= 7
    ensures n == 0 <==> !HasActiveFilters(f) && f.title == "" && f.keywords == "" && f.author == "" && f.abstractText == ""
  {
    Flag(f.strand != All) + Flag(f.researchLabel != All) + Flag(f.academicYear != All)
    + Flag(f.title != "") + Flag(f.keywords != "") + Flag(f.author != "") + Flag(f.abstractText != "")
  }

  /** The query never changes the badge. */
  lemma QueryNotCounted(f: SearchFilters, q: string)
    ensures ActiveFilterCount(f.(query := q)) == ActiveFilterCount(f)
  {
  }

  /** A counted filter always allows a submit; a blank query alone does not. */
  lemma CountedFilterAllowsSubmit(f: SearchFilters)
    ensures ActiveFilterCount(f) > 0 ==> SubmitAllowed(f)
    ensures ActiveFilterCount(f) == 0 && AllSpace(f.query) ==> !SubmitAllowed(f)
  {
  }

  /** A cleared page counts no filter and a submit there does nothing. */
  lemma DefaultsInactive()
    ensures ActiveFilterCount(DefaultFilters("")) == 0 && !SubmitAllowed(DefaultFilters(""))
  {
  }

  /** A search from the cleared criteria lists every record in store order. */
  lemma DefaultsFindAll(researches: seq<Research>)
    ensures SearchResults(researches, DefaultFilters("")) == researches
  {
    NoFiltersKeepAll(researches, DefaultFilters(""));
  }

  class Page {
    var filters: SearchFilters
    var hasSearched: bool
    /** The `q` parameter of the address; "" when absent. */
    var urlQuery: string

    /** The page as it first renders, with the address's `q` in the box. */
    constructor (q: string)
      ensures filters == DefaultFilters(q) && !hasSearched && urlQuery == q
    {
      filters := DefaultFilters(q);
      hasSearched := false;
      urlQuery := q;
    }

    /** The effect on mount: a `q` in the address is searched at once. */
    method Mount(store: Store)
      modifies this, store
      ensures urlQuery != "" ==> filters == old(filters).(query := urlQuery) && hasSearched
                                 && store.searchResults == SearchResults(old(store.researches), filters)
      ensures urlQuery == "" ==> filters == old(filters) && hasSearched == old(hasSearched)
                                 && store.searchResults == old(store.searchResults)
      ensures urlQuery == old(urlQuery)
      ensures store.researches == old(store.researches) && store.bookmarks == old(store.bookmarks)
    {
      if urlQuery != "" {
        filters := filters.(query := urlQuery);
        store.Search(filters);
        hasSearched := true;
      }
    }

    /** New criteria from the inputs or the quick filters, with the effect
        that re-searches when a quick filter changed and a search has run or
        a quick filter is set. */
    method ChangeFilters(store: Store, newFilters: SearchFilters)
      modifies this, store
      ensures filters == newFilters
      ensures var quickChanged := newFilters.strand != old(filters).strand
                                  || newFilters.researchLabel != old(filters).researchLabel
                                  || newFilters.academicYear != old(filters).academicYear;
              if quickChanged && (old(hasSearched) || HasActiveFilters(newFilters))
              then hasSearched && store.searchResults == SearchResults(old(store.researches), newFilters)
              else hasSearched == old(hasSearched) && store.searchResults == old(store.searchResults)
      ensures urlQuery == old(urlQuery)
      ensures store.researches == old(store.researches) && store.bookmarks == old(store.bookmarks)
    {
      var quickChanged := newFilters.strand != filters.strand
                          || newFilters.researchLabel != filters.researchLabel
                          || newFilters.academicYear != filters.academicYear;
      filters := newFilters;
      if quickChanged && (hasSearched || HasActiveFilters(filters)) {
        store.Search(filters);
        hasSearched := true;
      }
    }

    /** `handleSubmit`: searches only when something is asked for, and puts a
        non-empty query in the address. */
    method Submit(store: Store)
      modifies this, store
      ensures SubmitAllowed(old(filters)) ==>
                hasSearched && store.searchResults == SearchResults(old(store.researches), old(filters))
                && urlQuery == if old(filters).query != "" then old(filters).query else old(urlQuery)
      ensures !SubmitAllowed(old(filters)) ==>
                hasSearched == old(hasSearched) && store.searchResults == old(store.searchResults)
                && urlQuery == old(urlQuery)
      ensures filters == old(filters)
      ensures store.researches == old(store.researches) && store.bookmarks == old(store.bookmarks)
    {
      if SubmitAllowed(filters) {
        store.Search(filters);
        hasSearched := true;
        if filters.query != "" {
          urlQuery := filters.query;
        }
      }
    }

    /** `handleReset`: the default criteria, no `q`, no search. The quick
        filter effect that follows finds nothing set and no search run. */
    method Reset()
      modifies this
      ensures filters == DefaultFilters("") && urlQuery == "" && !hasSearched
      ensures !HasActiveFilters(filters) && ActiveFilterCount(filters) == 0
    {
      filters := DefaultFilters("");
      urlQuery := "";
      hasSearched := false;
    }

    /** The sort select: the new order, re-searched only after a search. */
    method ChangeSort(store: Store, sortBy: SortBy)
      modifies this, store
      ensures filters == old(filters).(sortBy := sortBy)
      ensures old(hasSearched) ==> store.searchResults == SearchResults(old(store.researches), filters)
      ensures !old(hasSearched) ==> store.searchResults == old(store.searchResults)
      ensures hasSearched == old(hasSearched) && urlQuery == old(urlQuery)
      ensures store.researches == old(store.researches) && store.bookmarks == old(store.bookmarks)
    {
      filters := filters.(sortBy := sortBy);
      if hasSearched {
        store.Search(filters);
      }
    }

    /** The list shown: the search results once a search has run, the whole
        store before. */
    function ResultsToShow(store: Store): (r: seq<Research>)
      reads this, store
      ensures hasSearched ==> r == store.searchResults
      ensures !hasSearched ==> r == store.researches
    {
      if hasSearched then store.searchResults else store.researches
    }
  }
}
