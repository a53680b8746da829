# VincentianHub core, modelled in Dafny

VincentianHub is a research repository for a school: students upload papers
(PDF), the site reads a title, an abstract, keywords, authors and a year out
of the document, formats APA and MLA citations, and lets visitors search,
bookmark, read and discuss the papers; administrators moderate users and
records. This project models the logic of that application that does not
depend on the browser or the hosted backend:

- the citation formatter (`citation_generator.dfy`, module `CitationGenerator`);
- the text-extraction entry points and the metadata parser
  (`ocr_service.dfy`, `metadata_parser.dfy`): the five-page loop over an
  abstract page oracle, the text-layer-or-OCR choice, the confidence rule,
  and every regular expression of `parseExtractedText` written out as the
  first match its backtracking search finds;
- the research store (`research_search.dfy`, `research_store.dfy`): the
  eight-step filter and the stable sort of `search`, the getters, and the
  local list updates that follow a successful backend call;
- the question-and-answer list of the research page and the permission
  checks of the Q&A panel (`research_detail.dfy`, `qa_section.dfy`);
- the upload form, the administrator dashboard, the search page, the quick
  filters, the classification selects and the research card (`upload.dfy`,
  `admin.dfy`, `search_page.dfy`, `quick_filters.dfy`, `label_select.dfy`,
  `academic_years.dfy`, `research_card.dfy`).

Shared modules: `Wrappers` (Option, Result), `Seqs` (filter, map, find,
subsequences, sums), `Text` (JavaScript string operations on ASCII: trim,
split, join, case, `parseInt`-style digits) and `Types` (the records of
`src/types/index.ts`).

Component state that the source replaces through React setters is a class
whose methods reassign `seq` and `map` fields (`ResearchStore.Store`,
`ResearchDetail.QuestionBoard`, `QASection.QAForm`, `Upload.UploadForm`,
`Admin.AdminPanel`, `SearchPage.Page`); loops of the source (the page loop,
the first-match loops of the parser, the academic-year loop) are methods
with loop invariants, proved equal to specification functions about which
the lemmas are stated. Backend answers, the signed-in user, the clock and
the current year are parameters.

Behaviour of the code worth knowing, which the model keeps:

- "Juan Dela Cruz" is "Cruz, J. D." in APA and "Cruz, Juan Dela" as a first
  MLA author: only the last word is taken as the surname (`JuanDelaCruzApa`,
  `TwoAuthorApaExample`), where APA style would keep the compound surname
  "Dela Cruz".
- The APA institution part is the institution followed by "." whatever it
  ends with, so an institution written "Inst." ends the citation in "Inst..".
- The confidence of an image extraction is the engine's own value, not
  clamped to [0, 100] (`OcrService.ImageResult`).

## Model

| member | source | states |
|---|---|---|
| CitationGenerator.Initial | src/lib/citation-generator.ts:13 | an initial is one or two characters and ends with a period |
| CitationGenerator.TypeLabel | src/lib/citation-generator.ts:38-46 | thesis, dissertation, capstone and practical research map to their four labels; exactly the absent type and "other" give "Unpublished manuscript" |
| CitationGenerator.FormatAuthorApa | src/lib/citation-generator.ts:6-17 | `formatAuthorAPA`: a one-word name is that word, a longer one is the last word, ", " and the initials of the earlier words, as ApaSingleWord and ApaManyWords state |
| CitationGenerator.FormatAuthorMla | src/lib/citation-generator.ts:22-33 | `formatAuthorMLA`: a one-word name is that word, a longer first author is inverted and a later one kept as given, as ApaSingleWord, MlaFirstManyWords and MlaLaterAuthorVerbatim state |
| CitationGenerator.ApaAuthors | src/lib/citation-generator.ts:56-71 | the APA author string is every author formatted and then listed by ApaAuthorList, as ApaListsEveryAuthor, ApaLongListNames and ApaLongListOmitsMiddle state |
| CitationGenerator.ApaAuthorList | src/lib/citation-generator.ts:57-70 | the five cases by number of names: "Unknown Author", one name, two joined by " & ", up to twenty with ", & " before the last, more with the first nineteen, ", ... " and the last, as ApaListIsSeries, ApaSeriesShape and ApaLongListByEnds state |
| CitationGenerator.ApaLayout | src/lib/citation-generator.ts:73-78 | the year, type and institution parts around the author string, as ApaLayoutYear, ApaLayoutSplit and ApaLayoutEnd state |
| CitationGenerator.ApaCitation | src/lib/citation-generator.ts:52-79 | `generateAPACitation`: the APA author string in the APA layout, as ApaCitationParts, NoAuthorsApa and TwoAuthorApaExample state |
| CitationGenerator.MlaAuthors | src/lib/citation-generator.ts:89-100 | the MLA author string by number of authors, only the first inverted and four or more shortened to "et al.", as MlaAuthorsShape, MlaListsEveryAuthor and MlaLongListFirstOnly state |
| CitationGenerator.MlaLayout | src/lib/citation-generator.ts:102-106 | the institution and year parts after the author string and quoted title, as MlaLayoutParts states |
| CitationGenerator.MlaCitation | src/lib/citation-generator.ts:85-107 | `generateMLACitation`: the MLA author string in the MLA layout, as MlaCitationParts, NoAuthorsMla and FourAuthorMlaExample state |
| CitationGenerator.GenerateCitations | src/lib/citation-generator.ts:112-117 | both styles of the same data; its parts are stated by the ApaCitation and MlaCitation rows |
| CitationGenerator.ApaSingleWord | src/lib/citation-generator.ts:7-8 | a name that is one word once trimmed comes back as that trimmed word, in APA and in both MLA positions |
| CitationGenerator.WordsOfName | src/lib/citation-generator.ts:7 | splitting on white-space runs a name written as blank-free words with single blanks gives back those words |
| CitationGenerator.ApaManyWords | src/lib/citation-generator.ts:10-16 | for two or more words, APA gives the last word, ", ", and the initials of all earlier words in order |
| CitationGenerator.InitialsJoin | src/lib/citation-generator.ts:11-14 | the blank-joined initials agree with an independent recursive definition of the initials |
| CitationGenerator.JuanDelaCruzApa | src/lib/citation-generator.ts:10-16 | "Juan Dela Cruz" is "Cruz, J. D." in APA |
| CitationGenerator.MariaSantosApa | src/lib/citation-generator.ts:10-16 | "Maria Santos" is "Santos, M." in APA |
| CitationGenerator.MlaFirstManyWords | src/lib/citation-generator.ts:26-29 | a first MLA author of two or more words is the last word, ", ", and the earlier words joined by single blanks |
| CitationGenerator.MlaLaterAuthorVerbatim | src/lib/citation-generator.ts:32 | a later MLA author of two or more words is the name exactly as given, untrimmed |
| CitationGenerator.JuanDelaCruzMla | src/lib/citation-generator.ts:26-29 | "Juan Dela Cruz" is "Cruz, Juan Dela" as a first MLA author |
| CitationGenerator.TwoAuthorApaExample | src/lib/citation-generator.ts:52-78 | the full APA citation of a two-author research paper with a year and an institution: "Cruz, J. D. & Santos, M. (year). title [Research paper]. inst." |
| CitationGenerator.TwoAuthorApaNames | src/lib/citation-generator.ts:61-62 | two authors are joined by " & " with no comma |
| CitationGenerator.FourAuthorMlaExample | src/lib/citation-generator.ts:85-106 | the full MLA citation of four authors starting with "Ana Reyes": "Reyes, Ana, et al. \"title.\" inst, year." |
| CitationGenerator.ApaListIsSeries | src/lib/citation-generator.ts:63-66 | for 3 to 20 names the APA author list equals an independent recursive rendering of the series "a, b, …, & z" |
| CitationGenerator.SeriesOfThree | src/lib/citation-generator.ts:63-66 | the series of three names is "a, b, & c" |
| CitationGenerator.SeriesOfJoin | src/lib/citation-generator.ts:65-66 | the comma join of all names but the last, ", & ", and the last name is the series |
| CitationGenerator.ApaListHasEveryName | src/lib/citation-generator.ts:57-66 | with 1 to 20 names every formatted name occurs in the author list |
| CitationGenerator.ApaShortListHasEveryName | src/lib/citation-generator.ts:59-62 | with one or two names both occur in the author list |
| CitationGenerator.ApaSeriesHasEveryName | src/lib/citation-generator.ts:63-66 | with 3 to 20 names every name occurs in the author list |
| CitationGenerator.ApaSeriesShape | src/lib/citation-generator.ts:63-66 | for 3 to 20 names the list is the comma join of the first n-1 names, ", & ", and the last |
| CitationGenerator.ApaListsEveryAuthor | src/lib/citation-generator.ts:56-71 | with 1 to 20 authors every author, APA-formatted, occurs in the author string |
| CitationGenerator.ApaLongListHasNames | src/lib/citation-generator.ts:67-70 | above 20 names each of the first 19 and the last occur in the list |
| CitationGenerator.ApaLongListNames | src/lib/citation-generator.ts:67-70 | above 20 authors each of the first 19 and the last occur, APA-formatted, in the author string |
| CitationGenerator.ApaLongListOmitsMiddle | src/lib/citation-generator.ts:67-70 | above 20 authors the author string depends only on the first 19 and the last: authors 20 to n-1 are left out |
| CitationGenerator.ApaLongListByEnds | src/lib/citation-generator.ts:67-70 | above 20 names, two lists with the same first 19 and the same last name render the same |
| CitationGenerator.MlaListsEveryAuthor | src/lib/citation-generator.ts:92-97 | with 1 to 3 authors the MLA author string contains the first author inverted and each later author as given |
| CitationGenerator.MlaAuthorsShape | src/lib/citation-generator.ts:92-97 | one author is the first-author form; two are joined by ", and "; three are "A, B, and C" |
| CitationGenerator.MlaLongListFirstOnly | src/lib/citation-generator.ts:98-99 | above three authors only the first, inverted, followed by ", et al." appears; the others do not matter |
| CitationGenerator.NoAuthors | src/lib/citation-generator.ts:57-58 | with no authors both citations start with "Unknown Author" |
| CitationGenerator.NoAuthorsApa | src/lib/citation-generator.ts:57-58 | with no authors the APA citation starts "Unknown Author " |
| CitationGenerator.NoAuthorsMla | src/lib/citation-generator.ts:90-91 | with no authors the MLA citation starts "Unknown Author. \"" |
| CitationGenerator.ApaLayoutYear | src/lib/citation-generator.ts:74-78 | the APA citation starts with the author string and a blank and contains "(year)", or "(n.d.)" for an empty year |
| CitationGenerator.ApaLayoutSplit | src/lib/citation-generator.ts:74-78 | the APA citation is author part, year part, and the title, type and institution part, in that order |
| CitationGenerator.ApaLayoutEnd | src/lib/citation-generator.ts:75-78 | with an institution the citation is the one without it followed by " inst."; without one it ends with "[type]." |
| CitationGenerator.ApaCitationParts | src/lib/citation-generator.ts:52-78 | an APA citation starts with its author string, carries the year or "(n.d.)", and ends with " institution." when there is one and "[type]." otherwise |
| CitationGenerator.MlaLayoutParts | src/lib/citation-generator.ts:103-106 | the MLA citation starts with the author string, '. "', the title and '." ', contains "institution, " when there is one, and ends with the year, or "n.d.", and a period |
| CitationGenerator.MlaCitationParts | src/lib/citation-generator.ts:85-106 | the same layout for the MLA citation of the data |
| OcrService.PageText | src/lib/ocr-service.ts:88-114 | a page's contribution always ends with a blank line |
| OcrService.PageTexts | src/lib/ocr-service.ts:79-115 | each page contributes its own text, in page order |
| OcrService.PagesText | src/lib/ocr-service.ts:79-115 | the pages' texts in order, each followed by a blank line, or none when a page fails, as ReadPages, PagesTextAppend and JoinedFails state |
| OcrService.PagesRead | src/lib/ocr-service.ts:76 | only the first min(n, 5) pages are read, as a prefix of the document |
| OcrService.ExtractTextFromPdf | src/lib/ocr-service.ts:58-129 | equals the specification of the page loop and parse; every failure is the one fixed message; success always reports confidence 85 |
| OcrService.PdfResult | src/lib/ocr-service.ts:58-129 | a document that does not load, or a page that fails, gives the one error message; otherwise the text of at most the first five pages is parsed at confidence 85, as ExtractTextFromPdf and LaterPagesIgnored state |
| OcrService.ReadPages | src/lib/ocr-service.ts:77-115 | the page loop appends the pages' texts in order and fails as soon as one page fails, as `PagesText` specifies |
| OcrService.ReadPage | src/lib/ocr-service.ts:85-114 | one page of the loop is what `PageText` specifies |
| OcrService.JoinedFails | src/lib/ocr-service.ts:79-115 | once a page has failed, no later page can make the document succeed |
| OcrService.JoinedStep | src/lib/ocr-service.ts:93-114 | a page that fails fails the document; a page that is read extends the text so far by its text |
| OcrService.PagesTextAppend | src/lib/ocr-service.ts:93-114 | the text of pages plus one more is the earlier text followed by the new page's text |
| OcrService.LaterPagesIgnored | src/lib/ocr-service.ts:76 | pages after the fifth never change the result |
| OcrService.TextLayerOrOcr | src/lib/ocr-service.ts:89-114 | the text layer is used exactly when it has more than 50 characters once trimmed; otherwise the OCR text, and without OCR text the page fails |
| OcrService.ImageResult | src/lib/ocr-service.ts:242-243 | an image result is the parse of the recognised text with the engine's confidence, unclamped |
| MetadataParser.FirstWhere | src/lib/ocr-service.ts:162 | the leftmost position where a pattern matches, or none when it matches nowhere |
| MetadataParser.LastWhere | src/lib/ocr-service.ts:157 | the last position in a range where a condition holds, and none exactly when it holds nowhere: where a greedy run that gives characters back stops |
| MetadataParser.Search | src/lib/ocr-service.ts:162 | `text.match` returns the capture at the leftmost position where the pattern matches, and nothing exactly when it matches nowhere |
| MetadataParser.SkipRun | src/lib/ocr-service.ts:157 | a greedy run stops at the first character outside it |
| MetadataParser.NextNewline | src/lib/ocr-service.ts:170 | `[^\n]+` runs to the next line break or the end of the text |
| MetadataParser.Lines | src/lib/ocr-service.ts:135 | no line is empty |
| MetadataParser.TitleOf | src/lib/ocr-service.ts:144-153 | the title is the first of the first five lines longer than 10 and shorter than 300 characters that is not a header or a number; it is empty exactly when there is no such line |
| MetadataParser.FindTitle | src/lib/ocr-service.ts:144-153 | the title loop with its break computes `TitleOf` |
| MetadataParser.TitleIsFirst | src/lib/ocr-service.ts:144-153 | a title line preceded only by non-title lines is the title |
| MetadataParser.AbstractPattern1At | src/lib/ocr-service.ts:157 | the section-terminated abstract pattern captures text that does not start with white space |
| MetadataParser.AbstractPattern2At | src/lib/ocr-service.ts:158 | the length-bounded abstract pattern captures 100 to 2000 characters |
| MetadataParser.Clean | src/lib/ocr-service.ts:164 | a cleaned capture is no longer than the capture and has no two adjacent white-space characters |
| MetadataParser.PickAbstract | src/lib/ocr-service.ts:161-167 | the abstract pattern loop with its break computes `AbstractLoop` |
| MetadataParser.AbstractLoop | src/lib/ocr-service.ts:161-167 | each usable capture replaces the abstract and one longer than 50 characters ends the loop, as PickAbstract, AbstractLoopOfTwo and AbstractLoopLast state |
| MetadataParser.AbstractLoopOfTwo | src/lib/ocr-service.ts:161-167 | a first capture longer than 50 characters once cleaned wins; otherwise the second usable capture, else the short first one, else empty |
| MetadataParser.AbstractLoopLast | src/lib/ocr-service.ts:163-164 | a usable capture replaces the abstract found so far |
| MetadataParser.ParagraphBreakAt | src/lib/ocr-service.ts:203 | a paragraph break found at a position ends after it |
| MetadataParser.ParagraphsFrom | src/lib/ocr-service.ts:203 | a split always yields at least one paragraph |
| MetadataParser.FallbackAbstract | src/lib/ocr-service.ts:202-207 | the paragraph fallback is at most 1000 characters long |
| MetadataParser.AbstractSources | src/lib/ocr-service.ts:161-207 | the fallback is used only when the patterns found nothing and there are more than two lines, and is then at most 1000 characters; a pattern abstract has no two adjacent white-space characters |
| MetadataParser.AbstractOf | src/lib/ocr-service.ts:155-207 | the pattern result, else the paragraph fallback when there are more than two lines, as AbstractSources and FallbackAbstract state |
| MetadataParser.CaptureLine | src/lib/ocr-service.ts:170 | a `[:\s]*([^\n]+)` capture is non-empty and within one line |
| MetadataParser.OptionalS | src/lib/ocr-service.ts:170 | with an optional "s" the capture is still non-empty and within one line |
| MetadataParser.KeywordsAt | src/lib/ocr-service.ts:170 | a keywords capture is non-empty and within one line |
| MetadataParser.AuthorsAt | src/lib/ocr-service.ts:180 | an authors capture ("by" anywhere, else "author") is non-empty and within one line |
| MetadataParser.SubmittedByAt | src/lib/ocr-service.ts:181 | a "submitted by" or "prepared by" capture is non-empty and within one line |
| MetadataParser.TrimmedPieces | src/lib/ocr-service.ts:172-174 | the trimmed pieces of a split are trimmed and hold no separator and no character absent from the input |
| MetadataParser.KeywordsOf | src/lib/ocr-service.ts:172-175 | the trimmed comma- or semicolon-separated pieces of 3 to 49 characters, in order, as KeywordsOfShape states |
| MetadataParser.AuthorsOf | src/lib/ocr-service.ts:187-190 | the trimmed comma- or ampersand-separated digit-free pieces of 4 to 99 characters, in order, as AuthorsOfShape states |
| MetadataParser.KeywordsOfShape | src/lib/ocr-service.ts:170-176 | every keyword is trimmed, 3 to 49 characters long and free of ',', ';' and line breaks, and every trimmed piece of that length is kept |
| MetadataParser.AuthorsOfShape | src/lib/ocr-service.ts:186-190 | every author is trimmed, 4 to 99 characters long, digit-free and free of ',', '&' and line breaks, and every such trimmed piece is kept |
| MetadataParser.PickAuthors | src/lib/ocr-service.ts:184-193 | the author pattern loop with its break computes `AuthorsLoop` |
| MetadataParser.AuthorsLoop | src/lib/ocr-service.ts:184-193 | the first pattern whose capture gives an author wins, as PickAuthors, AuthorsLoopOfTwo and ParsedAuthors state |
| MetadataParser.AuthorsLoopOfTwo | src/lib/ocr-service.ts:184-193 | the first pattern wins when it gives at least one author; otherwise the second pattern's authors when it matches, else none |
| MetadataParser.YearOf | src/lib/ocr-service.ts:196-199 | the year is the first word-bounded four-digit number starting with 19 or 20, and is absent exactly when there is none |
| MetadataParser.YearDigits | src/lib/ocr-service.ts:196 | a year match is four digits starting "19" or "20" |
| MetadataParser.ParsedText | src/lib/ocr-service.ts:209-217 | the parse keeps the input as raw text and reports confidence 0 |
| MetadataParser.ParseExtractedText | src/lib/ocr-service.ts:134-218 | `parseExtractedText`, with its title, abstract and author loops, computes `ParsedText` |
| MetadataParser.ParsedKeywords | src/lib/ocr-service.ts:170-176 | every keyword returned is trimmed, 3 to 49 characters long and free of ',', ';' and line breaks |
| MetadataParser.ParsedAuthors | src/lib/ocr-service.ts:179-193 | every author returned is trimmed, 4 to 99 characters long, digit-free and free of ',', '&' and line breaks |
| ResearchSearch.TransformResearch | src/contexts/ResearchContext.tsx:29-50 | a row becomes a record: missing keywords become [], a missing or empty author name "Unknown Author", missing views 0, the creation time the upload date, and every other column (affiliation, file URL and name, label, strand, academic year, access level, visibility, both citations, archived flag) is copied |
| ResearchSearch.KeywordTerms | src/contexts/ResearchContext.tsx:173 | the keyword terms are at least one, each trimmed and without commas |
| ResearchSearch.Narrow | src/contexts/ResearchContext.tsx:155-204 | one filter step keeps exactly the records that pass that criterion |
| ResearchSearch.NarrowStep | src/contexts/ResearchContext.tsx:155-204 | filtering by one more criterion after earlier filters is one filter by the conjunction |
| ResearchSearch.Filtered | src/contexts/ResearchContext.tsx:152-204 | the eight filter steps in order keep exactly the records satisfying every active criterion, as FilteredIsFilter states |
| ResearchSearch.FilteredIsFilter | src/contexts/ResearchContext.tsx:152-204 | the eight steps keep exactly the records that match all criteria, in store order |
| ResearchSearch.Insert | src/contexts/ResearchContext.tsx:209-212 | inserting adds exactly the new element, as a multiset |
| ResearchSearch.SortDescending | src/contexts/ResearchContext.tsx:209-212 | sorting is a permutation |
| ResearchSearch.InsertNonIncreasing | src/contexts/ResearchContext.tsx:209-212 | inserting keeps a list sorted by non-increasing key |
| ResearchSearch.SortNonIncreasing | src/contexts/ResearchContext.tsx:209-212 | the sorted list has non-increasing keys |
| ResearchSearch.InsertStable | src/contexts/ResearchContext.tsx:209-212 | inserting keeps the relative order of the elements of each key |
| ResearchSearch.SortStable | src/contexts/ResearchContext.tsx:209-212 | the sort is stable, as `Array.prototype.sort` is |
| ResearchSearch.Sorted | src/contexts/ResearchContext.tsx:206-217 | relevance keeps the order; views and date sort descending and stably, as SortNonIncreasing and SortStable state |
| ResearchSearch.SearchResults | src/contexts/ResearchContext.tsx:148-222 | the records `search` publishes, as SearchMembership, SearchPermutation, RelevanceKeepsOrder, ViewsOrder, DateOrder and SearchStable state |
| ResearchSearch.SearchMembership | src/contexts/ResearchContext.tsx:148-222 | a record is in the results exactly when it is in the store and matches the filters |
| ResearchSearch.SearchPermutation | src/contexts/ResearchContext.tsx:148-222 | the results are the matching records, each as often as in the store |
| ResearchSearch.RelevanceKeepsOrder | src/contexts/ResearchContext.tsx:214-216 | with "relevance" the results are the matching records in store order, a subsequence of the store |
| ResearchSearch.ViewsOrder | src/contexts/ResearchContext.tsx:211-213 | with "views" the results have non-increasing view counts |
| ResearchSearch.DateOrder | src/contexts/ResearchContext.tsx:208-210 | with "date" the results have non-increasing upload dates |
| ResearchSearch.SearchStable | src/contexts/ResearchContext.tsx:207-213 | records with equal sort keys keep their store order |
| ResearchSearch.NoFiltersKeepAll | src/contexts/ResearchContext.tsx:148-222 | with nothing applied and "relevance" the results are the whole store |
| ResearchSearch.EmptyKeywordTerm | src/contexts/ResearchContext.tsx:173-176 | an empty keyword term matches every record that has a keyword |
| ResearchSearch.KeywordsMatchWitness | src/contexts/ResearchContext.tsx:175 | a term contained in some lower-cased keyword makes the record match |
| ResearchSearch.ResearchById | src/contexts/ResearchContext.tsx:370-372 | the first record with the id, in store order; none exactly when no record has the id |
| ResearchSearch.ResearchesByAuthor | src/contexts/ResearchContext.tsx:374-376 | exactly the author's records, in store order |
| ResearchSearch.BookmarkedResearches | src/contexts/ResearchContext.tsx:437-439 | exactly the bookmarked records, in store order |
| ResearchStore.InsertPayload | src/contexts/ResearchContext.tsx:270-286 | the row sent names the signed-in user as author, keeps the given access level and visibility or defaults them to public and visible, takes the stored file's URL, and its name when non-empty, and passes the title, abstract, keywords, label, strand, academic year and both citations through |
| ResearchStore.NewResearch | src/contexts/ResearchContext.tsx:300-304 | the added record is the returned row with the user's name and affiliation |
| ResearchStore.Merge | src/contexts/ResearchContext.tsx:344-346 | a merge takes each of the eleven updatable fields that is given and keeps each absent one, keeps id, author, views and upload date, and stamps the time |
| ResearchStore.EmptyUpdate | src/contexts/ResearchContext.tsx:344-346 | an empty update only stamps the time |
| ResearchStore.Updated | src/contexts/ResearchContext.tsx:344-346 | only the records with the id are merged; the others are unchanged |
| ResearchStore.ViewAdded | src/contexts/ResearchContext.tsx:428-430 | only the records with the id gain exactly one view |
| ResearchStore.Deleted | src/contexts/ResearchContext.tsx:364 | exactly the records without the id remain, in order |
| ResearchStore.Toggled | src/contexts/ResearchContext.tsx:384-406 | the id is bookmarked afterwards exactly when it was not before; other bookmarks are unaffected |
| ResearchStore.ToggleTwice | src/contexts/ResearchContext.tsx:384-406 | toggling an unbookmarked id twice restores the bookmarks |
| ResearchStore.UntoggleKeepsOrder | src/contexts/ResearchContext.tsx:393 | removing a bookmark keeps the others in order |
| ResearchStore.ViewAddedTotal | src/contexts/ResearchContext.tsx:428-430 | the views total grows by the number of records with the id |
| ResearchStore.DeletedCount | src/contexts/ResearchContext.tsx:364 | deleting removes exactly the records with the id |
| ResearchStore.UpdatedHead | src/contexts/ResearchContext.tsx:344-346 | an update of the first record is found at the front |
| ResearchStore.UpdatedTail | src/contexts/ResearchContext.tsx:344-346 | a first record with another id is passed over by lookups before and after the update |
| ResearchStore.UpdatedLookup | src/contexts/ResearchContext.tsx:344-346 | after an update the record found under the id is the merge of the one found before |
| ResearchStore.UpdatedLookupOther | src/contexts/ResearchContext.tsx:344-346 | records found under other ids are unchanged by an update |
| ResearchStore.AddedIsFound | src/contexts/ResearchContext.tsx:306 | a record put in front is the one found under its id |
| ResearchStore.Store.constructor | src/contexts/ResearchContext.tsx:53-55 | the store starts empty |
| ResearchStore.Store.Search | src/contexts/ResearchContext.tsx:148-222 | `search` publishes the filtered, sorted results and changes nothing else |
| ResearchStore.Store.AddResearch | src/contexts/ResearchContext.tsx:224-317 | nothing is sent without a user or after a failed upload; a failed insert adds nothing; otherwise the new record is put in front |
| ResearchStore.Store.UpdateResearch | src/contexts/ResearchContext.tsx:319-350 | on success the list becomes `Updated`; on failure it is unchanged |
| ResearchStore.Store.DeleteResearch | src/contexts/ResearchContext.tsx:352-368 | on success the list becomes `Deleted`; on failure it is unchanged |
| ResearchStore.Store.ToggleBookmark | src/contexts/ResearchContext.tsx:378-411 | with a user and a successful call the bookmarks become `Toggled`; otherwise unchanged |
| ResearchStore.Store.IncrementViews | src/contexts/ResearchContext.tsx:417-435 | a known id and a successful call add a view; otherwise nothing changes |
| ResearchStore.Store.IsBookmarked | src/contexts/ResearchContext.tsx:413-415 | true exactly when the id is among the bookmarks |
| ResearchDetail.NewQuestion | src/pages/ResearchDetail.tsx:102-111 | a new question has id "q" and the clock, the user's id and name, no upvotes and no answers |
| ResearchDetail.NewAnswer | src/pages/ResearchDetail.tsx:117-125 | a new answer has id "a" and the clock, the user's id and name, and no upvotes |
| ResearchDetail.AnswerAdded | src/pages/ResearchDetail.tsx:126-132 | the answer is appended to exactly the questions with the id |
| ResearchDetail.QuestionUpvoted | src/pages/ResearchDetail.tsx:135-141 | only the questions with the id gain one upvote |
| ResearchDetail.AnswersUpvoted | src/pages/ResearchDetail.tsx:149-151 | only the answers with the id gain one upvote |
| ResearchDetail.AnswerUpvoted | src/pages/ResearchDetail.tsx:143-156 | only the matched answers inside the matched questions change |
| ResearchDetail.QuestionDeleted | src/pages/ResearchDetail.tsx:158-160 | exactly the questions without the id remain, in order |
| ResearchDetail.AnswerDeleted | src/pages/ResearchDetail.tsx:162-170 | the answer is removed only from the matched questions |
| ResearchDetail.InitialQuestions | src/pages/ResearchDetail.tsx:54-55 | the first questions shown are exactly the sample questions of the research, in order |
| ResearchDetail.AnswerAddedTotal | src/pages/ResearchDetail.tsx:126-132 | adding an answer adds one answer per question with the id |
| ResearchDetail.AnswerDeletedTotal | src/pages/ResearchDetail.tsx:162-170 | deleting never adds answers, and changes nothing when no question has the id |
| ResearchDetail.AnswerGone | src/pages/ResearchDetail.tsx:162-170 | afterwards the matched question holds no answer with the id |
| ResearchDetail.UpvoteUnknownAnswer | src/pages/ResearchDetail.tsx:143-156 | upvoting an answer that is not there changes nothing |
| ResearchDetail.QuestionBoard.constructor | src/pages/ResearchDetail.tsx:42 | the page starts with no questions |
| ResearchDetail.QuestionBoard.Load | src/pages/ResearchDetail.tsx:50-57 | loading shows the research's sample questions |
| ResearchDetail.QuestionBoard.AddQuestion | src/pages/ResearchDetail.tsx:100-113 | without a user nothing changes; otherwise the new question is put in front |
| ResearchDetail.QuestionBoard.AddAnswer | src/pages/ResearchDetail.tsx:115-133 | without a user nothing changes; otherwise the list becomes `AnswerAdded` |
| ResearchDetail.QuestionBoard.UpvoteQuestion | src/pages/ResearchDetail.tsx:135-141 | the list becomes `QuestionUpvoted` |
| ResearchDetail.QuestionBoard.UpvoteAnswer | src/pages/ResearchDetail.tsx:143-156 | the list becomes `AnswerUpvoted` |
| ResearchDetail.QuestionBoard.DeleteQuestion | src/pages/ResearchDetail.tsx:158-160 | the list becomes `QuestionDeleted` |
| ResearchDetail.QuestionBoard.DeleteAnswer | src/pages/ResearchDetail.tsx:162-170 | the list becomes `AnswerDeleted` |
| ResearchDetail.CitationsShown | src/pages/ResearchDetail.tsx:325-329 | the citation block is shown exactly when an APA or MLA citation is stored; a stored one is shown as is, a missing one is replaced by its fallback |
| ResearchDetail.FallbackApa | src/pages/ResearchDetail.tsx:328 | the APA line built from the author name, year, title and university, as FallbackApaShape and CitationsShown state |
| ResearchDetail.FallbackMla | src/pages/ResearchDetail.tsx:329 | the MLA line built from the author name, title, university and year, shown when the record has none as CitationsShown states |
| ResearchDetail.FallbackApaShape | src/pages/ResearchDetail.tsx:328 | the fallback APA line starts with the author name and ends with "Vincentian University." |
| QASection.AdminOrOwner | src/components/research/QASection.tsx:55 | a signed-in administrator or the owner, as ShowDeleteQuestion, ShowDeleteAnswer, AdminSeesAllDeletes and VisitorSeesNoDeletes state |
| QASection.ShowDeleteQuestion | src/components/research/QASection.tsx:192 | the delete control of a question shows exactly for an administrator or its owner, when a handler exists |
| QASection.ShowDeleteAnswer | src/components/research/QASection.tsx:237 | the delete control of an answer shows exactly for an administrator or its owner, when a handler exists |
| QASection.IsAuthorBadge | src/components/research/QASection.tsx:219 | the "Author" badge shows exactly when the answer is by the research's author |
| QASection.AdminSeesAllDeletes | src/components/research/QASection.tsx:55 | an administrator sees every delete control and counts as author or admin for any research |
| QASection.VisitorSeesNoDeletes | src/components/research/QASection.tsx:55 | a signed-out visitor sees no delete control and is not author or admin |
| QASection.QAForm.constructor | src/components/research/QASection.tsx:51-52 | both inputs start empty |
| QASection.QAForm.SubmitQuestion | src/components/research/QASection.tsx:57-77 | blank text or a signed-out visitor posts nothing; otherwise the text is posted and the box cleared |
| QASection.QAForm.SubmitAnswer | src/components/research/QASection.tsx:79-92 | an untouched or blank input posts nothing; otherwise it is posted and only that input is reset |
| QASection.PostedNotBlank | src/components/research/QASection.tsx:58 | what passes the guard has a non-space character |
| QASection.ResetKeepsOthers | src/components/research/QASection.tsx:86 | resetting one answer input leaves the others as typed |
| Upload.UploadAccess | src/pages/Upload.tsx:50-63 | once authentication has loaded, the form is usable exactly by a signed-in student or administrator, and signed-out visitors go to login |
| Upload.FileProblem | src/pages/Upload.tsx:84-98 | a file is accepted exactly when it is a PDF of at most 50 MiB; the type is checked first |
| Upload.SplitKeywords | src/pages/Upload.tsx:206 | every keyword is non-empty, trimmed and without commas |
| Upload.Blanked | src/pages/Upload.tsx:138 | each piece after a comma starts with the blank of ", " |
| Upload.JoinCommaBlank | src/pages/Upload.tsx:138 | joining with ", " is joining with "," pieces that start with a blank |
| Upload.SplitKeywordsOfJoin | src/pages/Upload.tsx:138 | clean keywords joined with ", " by the OCR merge split back, on submit, into the same keywords |
| Upload.BlankedParts | src/pages/Upload.tsx:138 | the pieces between commas trim back to the keywords |
| Text.IntToString | src/pages/Upload.tsx:149 | an integer prints as at least one character |
| Upload.ParseInt | src/pages/Upload.tsx:147-148 | `parseInt` fails exactly when no digit follows the blanks and the sign |
| Upload.CitationYear | src/pages/Upload.tsx:69 | with no academic year the current year is used |
| Upload.ParseIntOfNat | src/pages/Upload.tsx:147 | `parseInt` reads back a printed natural number |
| Upload.AcademicYearPieces | src/pages/Upload.tsx:149 | "(y-1)-y" splits at '-' into the two years |
| Upload.YearRoundTrip | src/pages/Upload.tsx:146-150 | an extracted year y becomes "(y-1)-y", whose citation year is y again |
| Upload.ValidationFirstFailure | src/pages/Upload.tsx:176-199 | the failing check is the first missing field in the order title, keywords, abstract, type, strand, academic year; none fails exactly when none is missing |
| Upload.FirstMissing | src/pages/Upload.tsx:176-199 | the first of the six required fields that is blank or unset, in the order checked, as ValidationFirstFailure states |
| Upload.CitationInput | src/pages/Upload.tsx:66-77 | citations are made only with a title and either extracted authors or a user name; authors default to the user, institution to the affiliation or "St. Vincent College" |
| Upload.MergedTitle | src/pages/Upload.tsx:129-131 | the title is replaced only by a non-empty title other than "Untitled Document" |
| Upload.MergedAbstract | src/pages/Upload.tsx:133-135 | the abstract is replaced only by a non-empty one |
| Upload.MergedKeywords | src/pages/Upload.tsx:137-139 | found keywords replace the field, joined with ", "; none keep it |
| Upload.MergedAuthors | src/pages/Upload.tsx:141-143 | found authors replace the list; none keep it |
| Upload.MergedAcademicYear | src/pages/Upload.tsx:146-151 | a year that parses gives "(y-1)-y"; otherwise the field is kept |
| Upload.UploadForm.constructor | src/pages/Upload.tsx:30-47 | every field starts empty |
| Upload.UploadForm.SelectFile | src/pages/Upload.tsx:84-115 | a refused file sets its message and keeps the current file; an accepted one is kept and clears the error |
| Upload.UploadForm.MergeOcrResult | src/pages/Upload.tsx:117-170 | a failed extraction changes nothing; a result merges field by field and shows the citations |
| Upload.UploadForm.RegenerateCitations | src/pages/Upload.tsx:65-82 | with a title and an author (extracted, or the user's name) both citations are regenerated from the form; otherwise both are kept |
| Upload.UploadForm.Submission | src/pages/Upload.tsx:206-225 | the submitted record has the form's title, abstract, label, strand, academic year and both citations, the split keywords, the user as author with their affiliation, public access, a visible abstract and the file's name |
| Upload.UploadForm.Submit | src/pages/Upload.tsx:172-245 | the first failing check sets its message and submits nothing; otherwise the record is submitted and a failed store call sets the failure message |
| Admin.AdminRedirect | src/pages/Admin.tsx:77-88 | the page stays exactly for a signed-in administrator; signed-out visitors go to login |
| Admin.RolesMap | src/pages/Admin.tsx:120-123 | the map has an entry exactly for the users with a role row |
| Admin.RoleOf | src/pages/Admin.tsx:127 | the role shown is the mapped role when non-empty, else "student" |
| Admin.WithRoles | src/pages/Admin.tsx:125-128 | each profile keeps its place and gets its role |
| Admin.LastRoleWins | src/pages/Admin.tsx:120-123 | the last row for a user decides the role |
| Admin.NoRoleIsDefault | src/pages/Admin.tsx:127 | a user without a role row is a student |
| Admin.Banned | src/pages/Admin.tsx:176 | exactly the users without the id remain, in order |
| Admin.BanIdempotent | src/pages/Admin.tsx:176 | banning twice is banning once |
| Admin.BanUnknown | src/pages/Admin.tsx:176 | banning an absent user changes nothing |
| Admin.ShowBanControl | src/pages/Admin.tsx:441 | the ban control shows exactly for users who are not administrators |
| Admin.FilteredResearches | src/pages/Admin.tsx:141-145 | exactly the records whose title or author name contains the query ignoring case, in order |
| Admin.EmptySearchKeepsAll | src/pages/Admin.tsx:141-145 | an empty query lists every record |
| Admin.AccessLevelShown | src/pages/Admin.tsx:300 | a missing access level reads as public |
| Admin.PublicCount | src/pages/Admin.tsx:185 | the number of public records; with the restricted count it is at most the number of records (StatsBounded), and a record with no access level is not counted (UnsetAccessNotCounted) |
| Admin.RestrictedCount | src/pages/Admin.tsx:186 | the number of restricted records; with the public count it is at most the number of records, as StatsBounded states |
| Admin.TotalViews | src/pages/Admin.tsx:187 | the sum of the records' views: never negative (StatsBounded) and at least each record's views (TotalViewsCoversEach) |
| Admin.StatsBounded | src/pages/Admin.tsx:184-187 | public plus restricted is at most the total, and the view total is not negative |
| Admin.TotalViewsCoversEach | src/pages/Admin.tsx:187 | the view total is at least the views of any record |
| Admin.UnsetAccessNotCounted | src/pages/Admin.tsx:185 | a record without an access level is shown as public but not counted as public |
| Admin.ToggledAsWritten | src/pages/Admin.tsx:148 | the code writes the negation of the field, and true when it is absent |
| Admin.VisibilityShown | src/pages/Admin.tsx:332 | the switch is on unless the field is explicitly false, as ToggleAsWrittenKeepsSwitch and ToggleFlipsSwitch use it |
| Admin.ToggleAsWrittenKeepsSwitch | src/pages/Admin.tsx:147-153 | on a record with no visibility set the switch is on before and after the first toggle |
| Admin.Toggled | src/pages/Admin.tsx:148 | the intended toggle writes the opposite of what the switch shows |
| Admin.ToggleFlipsSwitch | src/pages/Admin.tsx:147-153 | the intended toggle always flips the switch, and agrees with the code when the field is set |
| Admin.VisibilityUpdate | src/pages/Admin.tsx:148 | the switch sends only the visibility, set to the negation of the record's field, `true` when it is absent |
| Admin.AccessLevelUpdate | src/pages/Admin.tsx:156 | the select sends only the chosen access level |
| Admin.AccessLevelChangeShown | src/pages/Admin.tsx:155-161 | after a successful change the record shows the chosen level |
| Admin.ToggleChangeShown | src/pages/Admin.tsx:147-153 | after a successful toggle the record holds the negated field: its switch flips when the field was set and stays on when it was absent |
| Admin.AdminPanel.constructor | src/pages/Admin.tsx:73-74 | no users, loading |
| Admin.AdminPanel.FetchUsers | src/pages/Admin.tsx:91-139 | nothing for a non-administrator; a failed profiles query keeps the list; otherwise the profiles with their roles, all students when the roles query fails |
| Admin.AdminPanel.BanUser | src/pages/Admin.tsx:173-181 | the list becomes `Banned` |
| Admin.AdminPanel.ToggleAbstractVisibility | src/pages/Admin.tsx:147-153 | on success the record is updated with the visibility the code writes; on failure nothing changes; bookmarks and search results stay |
| Admin.AdminPanel.ChangeAccessLevel | src/pages/Admin.tsx:155-161 | on success the record is updated with the chosen level, otherwise the records stay; bookmarks and search results stay |
| Admin.AdminPanel.DeleteResearch | src/pages/Admin.tsx:163-171 | the record is deleted only when confirmed and the call succeeds; bookmarks and search results stay |
| SearchPage.DefaultFilters | src/pages/Search.tsx:41-51 | the default criteria: the query, empty texts, "relevance" and "all" for the three quick filters |
| SearchPage.ActiveFilterCount | src/pages/Search.tsx:102-110 | the badge counts 0 to 7 filters, and is 0 exactly when no quick filter is set and every advanced text is empty |
| SearchPage.QueryNotCounted | src/pages/Search.tsx:102-110 | the main query never changes the count |
| SearchPage.CountedFilterAllowsSubmit | src/pages/Search.tsx:73-74 | a counted filter allows a submit; a blank query with nothing counted does not |
| SearchPage.SubmitAllowed | src/pages/Search.tsx:73-74 | the submit guard; a counted filter allows a submit and the defaults do not, as CountedFilterAllowsSubmit and DefaultsInactive state |
| SearchPage.DefaultsInactive | src/pages/Search.tsx:83-97 | cleared criteria count nothing and a submit there does nothing |
| SearchPage.DefaultsFindAll | src/pages/Search.tsx:83-97 | a search from cleared criteria lists every record in store order |
| SearchPage.Page.constructor | src/pages/Search.tsx:41-51 | the page starts with the address's query and no search |
| SearchPage.Page.Mount | src/pages/Search.tsx:54-61 | a query in the address is searched at once; otherwise nothing happens |
| SearchPage.Page.ChangeFilters | src/pages/Search.tsx:64-69 | a change of a quick filter re-searches when a search has run or a quick filter is set |
| SearchPage.Page.Submit | src/pages/Search.tsx:71-81 | searches only when something is asked for, and puts a non-empty query in the address |
| SearchPage.Page.Reset | src/pages/Search.tsx:83-97 | every criterion back to its default, no query in the address, no search |
| SearchPage.Page.ChangeSort | src/pages/Search.tsx:270-274 | the new order, re-searched only after a search has run |
| SearchPage.Page.ResultsToShow | src/pages/Search.tsx:99 | the search results once a search has run, the whole store before |
| QuickFilters.StrandClicked | src/components/research/QuickFilters.tsx:51-56 | clicking a chip flips its selection, leaves no other chip selected, and changes only the strand |
| QuickFilters.HasActiveFilters | src/components/research/QuickFilters.tsx:49 | some quick filter is not "all"; clearing makes it false and clearing an inactive set changes nothing, as ClearFilters and ClearFiltersIdempotent state |
| QuickFilters.StrandClickedTwice | src/components/research/QuickFilters.tsx:51-56 | two clicks restore a selected strand and clear any other |
| QuickFilters.ClearFilters | src/components/research/QuickFilters.tsx:58-65 | no quick filter stays set; the query, the texts and the sort are kept |
| QuickFilters.ClearFiltersIdempotent | src/components/research/QuickFilters.tsx:58-65 | clearing twice is clearing once, and changes nothing when no quick filter is set |
| QuickFilters.LabelChosen | src/components/research/QuickFilters.tsx:112-117 | "all" stores 'all'; any other option stores the type it names; nothing else changes |
| QuickFilters.YearChosen | src/components/research/QuickFilters.tsx:134-140 | "all" stores 'all'; any other option stores that year; nothing else changes |
| QuickFilters.LabelSelectValue | src/components/research/QuickFilters.tsx:111 | the value the type select shows, "all" when no label is chosen, as SelectShowsChoice states |
| QuickFilters.YearSelectValue | src/components/research/QuickFilters.tsx:134 | the value the year select shows, "all" when no year or an empty one is chosen, as SelectShowsChoice states |
| QuickFilters.SelectShowsChoice | src/components/research/QuickFilters.tsx:110-140 | each select shows the option just chosen; an empty year, which no option offers, would show as "all" |
| AcademicYears.GenerateAcademicYears | src/components/research/ResearchLabelSelect.tsx:40-47 | the loop builds the specified options, newest first |
| AcademicYears.YearOptions | src/components/research/ResearchLabelSelect.tsx:40-47 | the academic-year options newest first, as GenerateAcademicYears, YearOptionsEnds, OptionAt, YearOptionsDistinct and Upload.YearOptionsDescending state |
| AcademicYears.YearOptionsStep | src/components/research/ResearchLabelSelect.tsx:43-45 | one more loop step appends the option of the next lower year |
| AcademicYears.YearOptionsEnds | src/components/research/ResearchLabelSelect.tsx:43-45 | there are currentYear + 2 - firstYear options, from "currentYear-(currentYear+1)" down to that of the first year |
| Upload.OptionYear | src/components/research/ResearchLabelSelect.tsx:43-45 | the option at index i reads back, through the upload form's citation year, as currentYear + 1 - i |
| AcademicYears.OptionAt | src/components/research/ResearchLabelSelect.tsx:43-45 | the option at index i is that of year currentYear + 1 - i |
| Upload.YearOptionsDescending | src/components/research/ResearchLabelSelect.tsx:43-45 | the years read back through the citation year strictly decrease along the list |
| AcademicYears.YearOptionsDistinct | src/components/research/ResearchLabelSelect.tsx:43-45 | no option appears twice |
| AcademicYears.AcademicYearOfInjective | src/components/research/ResearchLabelSelect.tsx:44 | different years give different "(y-1)-y" options |
| AcademicYears.QuickFilterYears | src/components/research/QuickFilters.tsx:37-44 | the search filters offer currentYear - 2018 options, the last "2019-2020" |
| AcademicYears.LabelSelectYears | src/components/research/ResearchLabelSelect.tsx:40-47 | the upload form offers currentYear - 2013 options, the last "2014-2015" |
| LabelSelect.LabelsListEachOnce | src/components/research/ResearchLabelSelect.tsx:22-28 | each research type is offered exactly once |
| LabelSelect.StrandsListEachOnce | src/components/research/ResearchLabelSelect.tsx:30-37 | each strand is offered exactly once |
| LabelSelect.SelectedLabel | src/components/research/ResearchLabelSelect.tsx:59 | the entry of the chosen type; none while no type is chosen |
| LabelSelect.LabelIndex | src/components/research/ResearchLabelSelect.tsx:22-28 | every type has an entry in the table |
| LabelSelect.StrandIndex | src/components/research/ResearchLabelSelect.tsx:30-37 | every strand has an entry in the table |
| ResearchCard.TruncateAbstract | src/components/research/ResearchCard.tsx:28-31 | a text within the limit is shown whole; a longer one is its first maxLength characters with the white space at both ends removed, then "...", as TruncatedPart states |
| ResearchCard.CardAbstract | src/components/research/ResearchCard.tsx:80 | the card's abstract is at most 203 characters and whole when at most 200 |
| ResearchCard.TruncatedPart | src/components/research/ResearchCard.tsx:30 | the part before the ellipsis is a slice `text[a..b]` of the first maxLength characters with only white space cut before `a` and from `b`, has no white space at either end, and is empty only when those characters are all blank |
| ResearchCard.KeywordBadges | src/components/research/ResearchCard.tsx:85 | at most four badges: the first keywords, in order |
| ResearchCard.OverflowBadge | src/components/research/ResearchCard.tsx:94-98 | the "+N" badge appears exactly when there are more than four keywords |
| ResearchCard.BadgesCoverKeywords | src/components/research/ResearchCard.tsx:85-98 | the badges shown plus N account for every keyword |
| Types.LabelOfValue | src/types/index.ts:3 | a stored string names a type only when that type is stored as it |
| Types.LabelValueRoundTrip | src/types/index.ts:3 | every type reads back from its string, and "all" names no type |

## Left out

- Supabase calls (queries, inserts, storage uploads, the user and role fetches) are not modelled; each becomes a parameter: a success flag, the returned row, or `None` for a failed call.
- PDF.js loading, page rasterisation and Tesseract recognition are foreign browser libraries; a document is a sequence of `Page` values giving each page's text-layer strings and OCR text, with `None` where a call would throw.
- Progress callbacks of the extraction path are advisory floating-point values and are not modelled.
- The `setTimeout` delays of `search` and of the Q&A submits, and the `isSearching`, `isSubmitting`, `isUploading`, `isScanning` and upload-progress flags, are timing only and are not modelled.
- `new Date()`, `Date.now()` and the current year are parameters; dates are integers, and locale date formatting is not modelled.
- Case mapping, `trim` and `\s` are ASCII only: Unicode white space and case folding are not modelled. Lengths are counted in characters, whereas JavaScript's `length`, `substring` and `charAt` count UTF-16 code units: for text outside the Basic Multilingual Plane the parser's length thresholds, the 1000-character fallback cut, the 200-character card limit and the APA initial differ from the browser's.
- Optional strings that the source tests for truthiness treat `undefined` and `''` alike; the model keeps only `Option` where the difference matters (stored citations, institution) and "" elsewhere.
- Toast messages, navigation targets other than the access decisions, and the confirmation dialog text are not modelled; the confirmation is a boolean parameter.
- The OCR confidence is a `real`; the fixed 85 of the PDF path and the 0 of the parser are exact, the engine's value is passed through.
- The image path's failure (a Tesseract error propagating unchanged) is not modelled; `ImageResult` takes the recognised text.
- `fetchResearches` and `fetchBookmarks`, which replace the whole lists from the backend, are not modelled beyond `TransformResearch`; the lists are whatever the store holds.
- CitationGenerator.GenerateCitations carries no contract of its own: it is the pair of `ApaCitation` and `MlaCitation` by definition, and the properties are stated about those two.
- MetadataParser.FallbackAbstract states only the 1000-character bound; which paragraph is taken is given by its definition over `Paragraphs`, without a separate lemma.
- Upload.ParseInt models `parseInt` on decimal text only: a "0x" prefix, read as hexadecimal without a radix, is not modelled, since the form passes it only digit captures.
- ResearchDetail.AnswerDeletedTotal states that the answer total does not grow, not the exact number removed.

## Findings

| source | as written | input that shows it | evidently intended | confidence | as-written member | corrected member |
|---|---|---|---|---|---|---|
| src/pages/Admin.tsx:147-153 | the toggle writes `!research.abstractVisible`, while the switch shows `abstractVisible !== false` | a record whose `abstractVisible` is absent: the switch is on, the toggle writes `true`, and the switch stays on; the column is declared non-null and inserts default it to `true`, so only a record written by other code reaches this case | the toggle writes the opposite of what the switch shows, so an absent value becomes `false` | medium, not executed | Admin.ToggleAsWrittenKeepsSwitch | Admin.ToggleFlipsSwitch |
