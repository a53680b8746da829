/** The read side of the research store of src/contexts/ResearchContext.tsx:
    the conversion of a database row, the filter and sort pipeline of
    `search`, and the getters. */
module ResearchSearch {
  import opened Wrappers
  import opened Text
  import opened Seqs
  import opened Types

  // ---------------------------------------------------------------- rows

  /** A row of the `researches` table as the backend returns it; columns that
      may be null are options. */
  datatype ResearchRow = ResearchRow(
    id: string,
    title: string,
    abstractText: string,
    keywords: Option<seq<string>>,
    authorId: string,
    authorName: Option<string>,
    authorAffiliation: Option<string>,
    fileUrl: Option<string>,
    fileName: Option<string>,
    views: Option<nat>,
    createdAt: int,
    updatedAt: int,
    researchLabel: Option<ResearchLabel>,
    strand: Option<ResearchStrand>,
    academicYear: Option<string>,
    accessLevel: Option<AccessLevel>,
    abstractVisible: Option<bool>,
    citationApa: Option<string>,
    citationMla: Option<string>,
    isArchived: Option<bool>)

  const UnknownAuthor := "Unknown Author"

  /** `transformResearch`: a row as a record. Missing keywords become the
      empty list, a missing or empty author name "Unknown Author", missing
      views 0; every other column is copied. */
  function TransformResearch(row: ResearchRow): (r: Research)
    ensures r.id == row.id && r.title == row.title && r.abstractText == row.abstractText
    ensures r.authorId == row.authorId && r.uploadDate == row.createdAt && r.updatedAt == row.updatedAt
    ensures r.keywords == if row.keywords.Some? then row.keywords.value else []
    ensures r.authorName != ""
    ensures r.authorName == if Present(row.authorName) then row.authorName.value else UnknownAuthor
    ensures r.views == if row.views.Some? then row.views.value else 0
    ensures r.authorAffiliation == row.authorAffiliation && r.fileUrl == row.fileUrl && r.fileName == row.fileName
    ensures r.researchLabel == row.researchLabel && r.strand == row.strand && r.academicYear == row.academicYear
    ensures r.accessLevel == row.accessLevel && r.abstractVisible == row.abstractVisible
    ensures r.citationApa == row.citationApa && r.citationMla == row.citationMla && r.isArchived == row.isArchived
  {
    Research(
      row.id, row.title, row.abstractText,
      if row.keywords.Some? then row.keywords.value else [],
      row.authorId,
      if Present(row.authorName) then row.authorName.value else UnknownAuthor,
      row.authorAffiliation, row.fileUrl, row.fileName,
      if row.views.Some? then row.views.value else 0,
      row.createdAt, row.updatedAt,
      row.researchLabel, row.strand, row.academicYear, row.accessLevel,
      row.abstractVisible, row.citationApa, row.citationMla, row.isArchived)
  }

  // ---------------------------------------------------------------- criteria

  /** The query matches the title, the abstract, a keyword or the author
      name, ignoring case. */
  predicate QueryMatches(query: string, r: Research)
  {
    ContainsIgnoreCase(r.title, query) ||
    ContainsIgnoreCase(r.abstractText, query) ||
    (exists k | k in r.keywords :: ContainsIgnoreCase(k, query)) ||
    ContainsIgnoreCase(r.authorName, query)
  }

  /** The terms of the keywords criterion: the lower-cased text split on
      commas, each piece trimmed. Empty terms are kept. */
  function KeywordTerms(keywords: string): (r: seq<string>)
    ensures |r| >= 1
    ensures forall i :: 0 <= i < |r| ==> IsTrimmed(r[i]) && ',' !in r[i]
  {
    var pieces := Split(LowerStr(keywords), {','});
    var r := Map(Trim, pieces);
    assert forall i :: 0 <= i < |r| ==> r[i] == Trim(pieces[i]);
    forall i | 0 <= i < |r|
      ensures IsTrimmed(r[i]) && ',' !in r[i]
    {
      TrimIsTrimmed(pieces[i]);
      if ',' in r[i] {
        TrimKeepsChars(pieces[i], ',');
      }
    }
    r
  }

  /** Some term occurs in some keyword of the record, ignoring the keyword's
      case (the terms are already lower-case). */
  predicate KeywordsMatch(terms: seq<string>, r: Research)
  {
    exists t, k | t in terms && k in r.keywords :: Contains(LowerStr(k), t)
  }

  /** The eight criteria of `search`, in the order they are applied. */
  datatype Criterion = Query | TitleField | KeywordsField | AuthorField | AbstractField
                     | StrandField | LabelField | YearField

  /** A criterion is applied when its filter value is truthy and not 'all'. */
  predicate Active(f: SearchFilters, c: Criterion)
  {
    match c
    case Query => f.query != ""
    case TitleField => f.title != ""
    case KeywordsField => f.keywords != ""
    case AuthorField => f.author != ""
    case AbstractField => f.abstractText != ""
    case StrandField => f.strand.Only?
    case LabelField => f.researchLabel.Only?
    case YearField => f.academicYear.Only? && f.academicYear.value != "" && f.academicYear.value != "all"
  }

  /** What an applied criterion asks of a record. */
  predicate Satisfies(f: SearchFilters, c: Criterion, r: Research)
  {
    match c
    case Query => QueryMatches(f.query, r)
    case TitleField => ContainsIgnoreCase(r.title, f.title)
    case KeywordsField => KeywordsMatch(KeywordTerms(f.keywords), r)
    case AuthorField => ContainsIgnoreCase(r.authorName, f.author)
    case AbstractField => ContainsIgnoreCase(r.abstractText, f.abstractText)
    case StrandField => f.strand.Only? && r.strand == Some(f.strand.value)
    case LabelField => f.researchLabel.Only? && r.researchLabel == Some(f.researchLabel.value)
    case YearField => f.academicYear.Only? && r.academicYear == Some(f.academicYear.value)
  }

  /** A record passes a criterion that is skipped or that it satisfies. */
  predicate Passes(f: SearchFilters, c: Criterion, r: Research)
  {
    !Active(f, c) || Satisfies(f, c, r)
  }

  /** A record matches the filters when it passes all eight criteria. */
  predicate Matches(f: SearchFilters, r: Research)
  {
    Passes(f, Query, r) && Passes(f, TitleField, r) && Passes(f, KeywordsField, r) &&
    Passes(f, AuthorField, r) && Passes(f, AbstractField, r) && Passes(f, StrandField, r) &&
    Passes(f, LabelField, r) && Passes(f, YearField, r)
  }

  /** One filtering step of `search`: an inactive criterion keeps every record. */
  function Narrow(results: seq<Research>, f: SearchFilters, c: Criterion): (r: seq<Research>)
    ensures forall x :: x in r <==> x in results && Passes(f, c, x)
  {
    if Active(f, c) then Filter(results, (x: Research) => Satisfies(f, c, x)) else results
  }

  /** The filtering half of `search`: the eight steps in order. */
  function Filtered(researches: seq<Research>, f: SearchFilters): seq<Research>
  {
    var r1 := Narrow(researches, f, Query);
    var r2 := Narrow(r1, f, TitleField);
    var r3 := Narrow(r2, f, KeywordsField);
    var r4 := Narrow(r3, f, AuthorField);
    var r5 := Narrow(r4, f, AbstractField);
    var r6 := Narrow(r5, f, StrandField);
    var r7 := Narrow(r6, f, LabelField);
    Narrow(r7, f, YearField)
  }

  /** A step on records already filtered by `p` is one filter by `p` and the
      step's criterion. */
  lemma {:induction false} NarrowStep(xs: seq<Research>, f: SearchFilters, c: Criterion,
                                      p: Research -> bool, q: Research -> bool)
    requires forall x :: q(x) == (p(x) && Passes(f, c, x))
    ensures Narrow(Filter(xs, p), f, c) == Filter(xs, q)
  {
    if Active(f, c) {
      FilterStep(xs, p, (x: Research) => Satisfies(f, c, x), q);
    } else {
      FilterExt(xs, p, q);
    }
  }

  /** The eight steps keep exactly the matching records, in their order. */
  lemma {:induction false} FilteredIsFilter(researches: seq<Research>, f: SearchFilters)
    ensures Filtered(researches, f) == Filter(researches, (x: Research) => Matches(f, x))
  {
    var p0 := (x: Research) => true;
    var p1 := (x: Research) => p0(x) && Passes(f, Query, x);
    var p2 := (x: Research) => p1(x) && Passes(f, TitleField, x);
    var p3 := (x: Research) => p2(x) && Passes(f, KeywordsField, x);
    var p4 := (x: Research) => p3(x) && Passes(f, AuthorField, x);
    var p5 := (x: Research) => p4(x) && Passes(f, AbstractField, x);
    var p6 := (x: Research) => p5(x) && Passes(f, StrandField, x);
    var p7 := (x: Research) => p6(x) && Passes(f, LabelField, x);
    var p8 := (x: Research) => p7(x) && Passes(f, YearField, x);
    FilterAll(researches, p0);
    NarrowStep(researches, f, Query, p0, p1);
    NarrowStep(researches, f, TitleField, p1, p2);
    NarrowStep(researches, f, KeywordsField, p2, p3);
    NarrowStep(researches, f, AuthorField, p3, p4);
    NarrowStep(researches, f, AbstractField, p4, p5);
    NarrowStep(researches, f, StrandField, p5, p6);
    NarrowStep(researches, f, LabelField, p6, p7);
    NarrowStep(researches, f, YearField, p7, p8);
    FilterExt(researches, p8, (x: Research) => Matches(f, x));
  }

  // ---------------------------------------------------------------- sorting

  /** The sort key of `date` and `views`. */
  function Key(sortBy: SortBy, r: Research): int
  {
    match sortBy
    case Date => r.uploadDate
    case Views => r.views
    case Relevance => 0
  }

  /** Places `x` before the first element whose key is not larger: what a
      stable sort with comparator `key(b) - key(a)` does with the first
      element of its input. */
  function Insert<T>(x: T, sorted: seq<T>, key: T -> int): (r: seq<T>)
    ensures |r| == |sorted| + 1
    ensures multiset(r) == multiset(sorted) + multiset{x}
  {
    if sorted == [] || key(x) >= key(sorted[0]) then [x] + sorted
    else
      assert sorted == [sorted[0]] + sorted[1..];
      [sorted[0]] + Insert(x, sorted[1..], key)
  }

  /** The stable `Array.prototype.sort` ordering by non-increasing key. */
  function SortDescending<T>(xs: seq<T>, key: T -> int): (r: seq<T>)
    ensures |r| == |xs|
    ensures multiset(r) == multiset(xs)
  {
    if xs == [] then []
    else
      assert xs == [xs[0]] + xs[1..];
      Insert(xs[0], SortDescending(xs[1..], key), key)
  }

  predicate NonIncreasing<T>(xs: seq<T>, key: T -> int)
  {
    forall i, j :: 0 <= i < j < |xs| ==> key(xs[i]) >= key(xs[j])
  }

  lemma {:induction false} InsertNonIncreasing<T>(x: T, sorted: seq<T>, key: T -> int)
    requires NonIncreasing(sorted, key)
    ensures NonIncreasing(Insert(x, sorted, key), key)
    ensures Insert(x, sorted, key)[0] == x || (sorted != [] && Insert(x, sorted, key)[0] == sorted[0])
  {
    if sorted != [] && key(x) < key(sorted[0]) {
      InsertNonIncreasing(x, sorted[1..], key);
      var rest := Insert(x, sorted[1..], key);
      var r := [sorted[0]] + rest;
      assert forall k :: 0 < k < |r| ==> r[k] == rest[k - 1];
      forall k | 0 < k < |r|
        ensures key(r[0]) >= key(r[k])
      {
        if rest[k - 1] != x {
          assert rest[k - 1] in multiset(rest);
          assert rest[k - 1] in multiset(sorted[1..]);
          var m :| 0 <= m < |sorted[1..]| && sorted[1..][m] == rest[k - 1];
          assert sorted[m + 1] == rest[k - 1];
        }
      }
    }
  }

  /** The sorted records are ordered by non-increasing key. */
  lemma {:induction false} SortNonIncreasing<T>(xs: seq<T>, key: T -> int)
    ensures NonIncreasing(SortDescending(xs, key), key)
  {
    if xs != [] {
      SortNonIncreasing(xs[1..], key);
      InsertNonIncreasing(xs[0], SortDescending(xs[1..], key), key);
    }
  }

  /** Inserting keeps, among the elements of one key, their relative order,
      with `x` first when it has that key. */
  lemma {:induction false} InsertStable<T>(x: T, sorted: seq<T>, key: T -> int, k: int, sameKey: T -> bool)
    requires forall y :: sameKey(y) == (key(y) == k)
    ensures Filter(Insert(x, sorted, key), sameKey) ==
            if key(x) == k then [x] + Filter(sorted, sameKey) else Filter(sorted, sameKey)
  {
    if sorted == [] || key(x) >= key(sorted[0]) {
      assert ([x] + sorted)[1..] == sorted;
    } else {
      InsertStable(x, sorted[1..], key, k, sameKey);
      assert ([sorted[0]] + Insert(x, sorted[1..], key))[1..] == Insert(x, sorted[1..], key);
      if key(x) == k {
        assert !sameKey(sorted[0]);
      }
    }
  }

  /** The sort is stable: the records of any one key keep their order. */
  lemma {:induction false} SortStable<T>(xs: seq<T>, key: T -> int, k: int, sameKey: T -> bool)
    requires forall y :: sameKey(y) == (key(y) == k)
    ensures Filter(SortDescending(xs, key), sameKey) == Filter(xs, sameKey)
  {
    if xs != [] {
      SortStable(xs[1..], key, k, sameKey);
      InsertStable(xs[0], SortDescending(xs[1..], key), key, k, sameKey);
    }
  }

  /** The sorting half of `search`: 'relevance' keeps the order. */
  function Sorted(results: seq<Research>, sortBy: SortBy): seq<Research>
  {
    if sortBy == Relevance then results
    else SortDescending(results, (r: Research) => Key(sortBy, r))
  }

  /** The records `search` publishes as `searchResults`. */
  function SearchResults(researches: seq<Research>, f: SearchFilters): seq<Research>
  {
    Sorted(Filtered(researches, f), f.sortBy)
  }

  // ---------------------------------------------------------------- search properties

  /** A record is among the results exactly when it is in the store and
      matches every applied criterion. */
  lemma {:induction false} SearchMembership(researches: seq<Research>, f: SearchFilters, x: Research)
    ensures x in SearchResults(researches, f) <==> x in researches && Matches(f, x)
  {
    FilteredIsFilter(researches, f);
    var filtered := Filtered(researches, f);
    assert x in SearchResults(researches, f) <==> x in multiset(SearchResults(researches, f));
    assert x in filtered <==> x in multiset(filtered);
  }

  /** The results are the matching records, each as often as in the store:
      sorting only reorders. */
  lemma {:induction false} SearchPermutation(researches: seq<Research>, f: SearchFilters)
    ensures multiset(SearchResults(researches, f)) == multiset(Filter(researches, (x: Research) => Matches(f, x)))
  {
    FilteredIsFilter(researches, f);
  }

  /** With 'relevance' the results are a subsequence of the store in its own
      order. */
  lemma {:induction false} RelevanceKeepsOrder(researches: seq<Research>, f: SearchFilters)
    requires f.sortBy == Relevance
    ensures SearchResults(researches, f) == Filter(researches, (x: Research) => Matches(f, x))
    ensures IsSubsequence(SearchResults(researches, f), researches)
  {
    FilteredIsFilter(researches, f);
    FilterIsSubsequence(researches, (x: Research) => Matches(f, x));
  }

  /** With 'views' the results have non-increasing view counts. */
  lemma {:induction false} ViewsOrder(researches: seq<Research>, f: SearchFilters)
    requires f.sortBy == Views
    ensures forall i, j :: 0 <= i < j < |SearchResults(researches, f)| ==>
              SearchResults(researches, f)[i].views >= SearchResults(researches, f)[j].views
  {
    var key := (r: Research) => Key(Views, r);
    SortNonIncreasing(Filtered(researches, f), key);
  }

  /** With 'date' the results have non-increasing upload dates. */
  lemma {:induction false} DateOrder(researches: seq<Research>, f: SearchFilters)
    requires f.sortBy == Date
    ensures forall i, j :: 0 <= i < j < |SearchResults(researches, f)| ==>
              SearchResults(researches, f)[i].uploadDate >= SearchResults(researches, f)[j].uploadDate
  {
    var key := (r: Research) => Key(Date, r);
    SortNonIncreasing(Filtered(researches, f), key);
  }

  /** Records with equal sort keys keep their store order in the results. */
  lemma {:induction false} SearchStable(researches: seq<Research>, f: SearchFilters, k: int)
    requires f.sortBy != Relevance
    ensures Filter(SearchResults(researches, f), (x: Research) => Key(f.sortBy, x) == k) ==
            Filter(researches, (x: Research) => Matches(f, x) && Key(f.sortBy, x) == k)
  {
    var sameKey := (x: Research) => Key(f.sortBy, x) == k;
    var key := (r: Research) => Key(f.sortBy, r);
    SortStable(Filtered(researches, f), key, k, sameKey);
    FilteredIsFilter(researches, f);
    FilterStep(researches, (x: Research) => Matches(f, x), sameKey,
               (x: Research) => Matches(f, x) && Key(f.sortBy, x) == k);
  }

  /** Filters with nothing applied keep the whole store. */
  lemma {:induction false} NoFiltersKeepAll(researches: seq<Research>, f: SearchFilters)
    requires f.query == "" && f.title == "" && f.keywords == "" && f.author == "" && f.abstractText == ""
    requires !f.strand.Only? && !f.researchLabel.Only? && !f.academicYear.Only?
    requires f.sortBy == Relevance
    ensures SearchResults(researches, f) == researches
  {
  }

  /** An empty term in the keywords criterion (a trailing comma, say) is in
      every keyword, so it keeps every record that has a keyword. */
  lemma {:induction false} EmptyKeywordTerm(f: SearchFilters, r: Research)
    requires "" in KeywordTerms(f.keywords) && r.keywords != []
    ensures Passes(f, KeywordsField, r)
  {
    var k := r.keywords[0];
    ContainsEmpty(LowerStr(k));
    KeywordsMatchWitness(KeywordTerms(f.keywords), r, "", k);
  }

  lemma {:induction false} KeywordsMatchWitness(terms: seq<string>, r: Research, t: string, k: string)
    requires t in terms && k in r.keywords && Contains(LowerStr(k), t)
    ensures KeywordsMatch(terms, r)
  {
  }

  // ---------------------------------------------------------------- getters

  /** `getResearchById`: the first record with the id. */
  function ResearchById(researches: seq<Research>, id: string): (r: Option<Research>)
    ensures r.None? <==> forall i :: 0 <= i < |researches| ==> researches[i].id != id
    ensures r.Some? ==> r.value in researches && r.value.id == id
    ensures r.Some? ==> exists i :: 0 <= i < |researches| && researches[i] == r.value
                                    && forall j :: 0 <= j < i ==> researches[j].id != id
  {
    Find(researches, (x: Research) => x.id == id)
  }

  /** `getResearchesByAuthor`: the author's records, in store order. */
  function ResearchesByAuthor(researches: seq<Research>, authorId: string): (r: seq<Research>)
    ensures forall x :: x in r <==> x in researches && x.authorId == authorId
    ensures IsSubsequence(r, researches)
  {
    FilterIsSubsequence(researches, (x: Research) => x.authorId == authorId);
    Filter(researches, (x: Research) => x.authorId == authorId)
  }

  /** `getBookmarkedResearches`: the bookmarked records, in store order. */
  function BookmarkedResearches(researches: seq<Research>, bookmarks: seq<string>): (r: seq<Research>)
    ensures forall x :: x in r <==> x in researches && x.id in bookmarks
    ensures IsSubsequence(r, researches)
  {
    FilterIsSubsequence(researches, (x: Research) => x.id in bookmarks);
    Filter(researches, (x: Research) => x.id in bookmarks)
  }
}
