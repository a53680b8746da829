/** The write side of the research store of src/contexts/ResearchContext.tsx:
    the list of records, the bookmarks and the last search results, and the
    operations that change them once the backend has answered. The backend
    is not modelled: its answer (success, the inserted row) is a parameter. */
module ResearchStore {
  import opened Wrappers
  import opened Seqs
  import opened Types
  import opened ResearchSearch

  // ---------------------------------------------------------------- insert

  /** A stored upload: its public URL and the original file name. */
  datatype StoredFile = StoredFile(url: string, name: string)

  /** The row `addResearch` sends to the `researches` table. */
  datatype ResearchInsert = ResearchInsert(
    title: string,
    abstractText: string,
    keywords: seq<string>,
    authorId: string,
    fileUrl: Option<string>,
    fileName: Option<string>,
    researchLabel: Option<ResearchLabel>,
    strand: Option<ResearchStrand>,
    academicYear: Option<string>,
    accessLevel: AccessLevel,
    abstractVisible: bool,
    citationApa: Option<string>,
    citationMla: Option<string>)

  /** The insert payload: the author is the signed-in user whatever the form
      says, the access level defaults to public, the abstract to visible,
      and the file name of an upload wins over the form's. */
  function InsertPayload(data: Research, user: User, stored: Option<StoredFile>): (r: ResearchInsert)
    ensures r.authorId == user.id
    ensures r.accessLevel == if data.accessLevel.Some? then data.accessLevel.value else Public
    ensures r.abstractVisible == if data.abstractVisible.Some? then data.abstractVisible.value else true
    ensures r.fileUrl == if stored.Some? then Some(stored.value.url) else None
    ensures r.fileName == if stored.Some? && stored.value.name != "" then Some(stored.value.name) else data.fileName
    ensures r.title == data.title && r.abstractText == data.abstractText && r.keywords == data.keywords
    ensures r.researchLabel == data.researchLabel && r.strand == data.strand && r.academicYear == data.academicYear
    ensures r.citationApa == data.citationApa && r.citationMla == data.citationMla
  {
    ResearchInsert(
      data.title, data.abstractText, data.keywords, user.id,
      if stored.Some? then Some(stored.value.url) else None,
      if stored.Some? && stored.value.name != "" then Some(stored.value.name) else data.fileName,
      data.researchLabel, data.strand, data.academicYear,
      if data.accessLevel.Some? then data.accessLevel.value else Public,
      if data.abstractVisible.Some? then data.abstractVisible.value else true,
      data.citationApa, data.citationMla)
  }

  /** The record `addResearch` adds for the row the backend returns: the row
      with the signed-in user's name and affiliation. */
  function NewResearch(row: ResearchRow, user: User): (r: Research)
    ensures r.id == row.id && r.authorName == user.fullName && r.authorAffiliation == user.affiliation
    ensures r.(authorName := TransformResearch(row).authorName,
               authorAffiliation := TransformResearch(row).authorAffiliation) == TransformResearch(row)
  {
    TransformResearch(row).(authorName := user.fullName, authorAffiliation := user.affiliation)
  }

  // ---------------------------------------------------------------- update

  /** The fields of `Partial<Research>` that callers pass to
      `updateResearch`; `None` is a field the update leaves out. */
  datatype ResearchUpdate = ResearchUpdate(
    title: Option<string>,
    abstractText: Option<string>,
    keywords: Option<seq<string>>,
    researchLabel: Option<ResearchLabel>,
    strand: Option<ResearchStrand>,
    academicYear: Option<string>,
    accessLevel: Option<AccessLevel>,
    abstractVisible: Option<bool>,
    citationApa: Option<string>,
    citationMla: Option<string>,
    isArchived: Option<bool>)

  function Override<T>(base: T, given: Option<T>): T
  {
    if given.Some? then given.value else base
  }

  function OverrideOption<T>(base: Option<T>, given: Option<T>): Option<T>
  {
    if given.Some? then given else base
  }

  /** `{ ...r, ...updates, updatedAt: now }`. */
  function Merge(r: Research, u: ResearchUpdate, now: int): (m: Research)
    ensures m.id == r.id && m.authorId == r.authorId && m.authorName == r.authorName
    ensures m.views == r.views && m.uploadDate == r.uploadDate && m.updatedAt == now
    ensures u.title.Some? ==> m.title == u.title.value
    ensures u.title.None? ==> m.title == r.title
    ensures u.abstractText.Some? ==> m.abstractText == u.abstractText.value
    ensures u.abstractText.None? ==> m.abstractText == r.abstractText
    ensures u.keywords.Some? ==> m.keywords == u.keywords.value
    ensures u.keywords.None? ==> m.keywords == r.keywords
    ensures u.researchLabel.Some? ==> m.researchLabel == u.researchLabel
    ensures u.researchLabel.None? ==> m.researchLabel == r.researchLabel
    ensures u.strand.Some? ==> m.strand == u.strand
    ensures u.strand.None? ==> m.strand == r.strand
    ensures u.academicYear.Some? ==> m.academicYear == u.academicYear
    ensures u.academicYear.None? ==> m.academicYear == r.academicYear
    ensures u.citationApa.Some? ==> m.citationApa == u.citationApa
    ensures u.citationApa.None? ==> m.citationApa == r.citationApa
    ensures u.citationMla.Some? ==> m.citationMla == u.citationMla
    ensures u.citationMla.None? ==> m.citationMla == r.citationMla
    ensures u.accessLevel.Some? ==> m.accessLevel == u.accessLevel
    ensures u.accessLevel.None? ==> m.accessLevel == r.accessLevel
    ensures u.abstractVisible.Some? ==> m.abstractVisible == u.abstractVisible
    ensures u.abstractVisible.None? ==> m.abstractVisible == r.abstractVisible
    ensures u.isArchived.Some? ==> m.isArchived == u.isArchived
    ensures u.isArchived.None? ==> m.isArchived == r.isArchived
  {
    r.(title := Override(r.title, u.title),
       abstractText := Override(r.abstractText, u.abstractText),
       keywords := Override(r.keywords, u.keywords),
       researchLabel := OverrideOption(r.researchLabel, u.researchLabel),
       strand := OverrideOption(r.strand, u.strand),
       academicYear := OverrideOption(r.academicYear, u.academicYear),
       accessLevel := OverrideOption(r.accessLevel, u.accessLevel),
       abstractVisible := OverrideOption(r.abstractVisible, u.abstractVisible),
       citationApa := OverrideOption(r.citationApa, u.citationApa),
       citationMla := OverrideOption(r.citationMla, u.citationMla),
       isArchived := OverrideOption(r.isArchived, u.isArchived),
       updatedAt := now)
  }

  /** Merging an empty update only stamps the time. */
  lemma EmptyUpdate(r: Research, now: int)
    ensures Merge(r, ResearchUpdate(None, None, None, None, None, None, None, None, None, None, None), now)
            == r.(updatedAt := now)
  {
  }

  /** The list after `updateResearch`: the update merged into the records
      with the id, every other record as it was. */
  function Updated(rs: seq<Research>, id: string, u: ResearchUpdate, now: int): (r: seq<Research>)
    ensures |r| == |rs|
    ensures forall i :: 0 <= i < |rs| ==> r[i] == if rs[i].id == id then Merge(rs[i], u, now) else rs[i]
  {
    seq(|rs|, i requires 0 <= i < |rs| => if rs[i].id == id then Merge(rs[i], u, now) else rs[i])
  }

  /** The list after `incrementViews`: one more view on the records with the
      id, every other record as it was. */
  function ViewAdded(rs: seq<Research>, id: string): (r: seq<Research>)
    ensures |r| == |rs|
    ensures forall i :: 0 <= i < |rs| ==> r[i] == if rs[i].id == id then rs[i].(views := rs[i].views + 1) else rs[i]
  {
    seq(|rs|, i requires 0 <= i < |rs| => if rs[i].id == id then rs[i].(views := rs[i].views + 1) else rs[i])
  }

  function ViewsOf(r: Research): int
  {
    r.views
  }

  /** The list after `deleteResearch`. */
  function Deleted(rs: seq<Research>, id: string): (r: seq<Research>)
    ensures forall x :: x in r <==> x in rs && x.id != id
    ensures IsSubsequence(r, rs)
  {
    FilterIsSubsequence(rs, (x: Research) => x.id != id);
    Filter(rs, (x: Research) => x.id != id)
  }

  /** The bookmarks after a successful `toggleBookmark`: every occurrence of
      a bookmarked id removed, an id not bookmarked appended. */
  function Toggled(bookmarks: seq<string>, id: string): (r: seq<string>)
    ensures id in r <==> id !in bookmarks
    ensures forall b :: b != id ==> (b in r <==> b in bookmarks)
    ensures id !in bookmarks ==> r == bookmarks + [id]
  {
    if id in bookmarks then Filter(bookmarks, (b: string) => b != id) else bookmarks + [id]
  }

  // ---------------------------------------------------------------- properties

  /** Toggling an id that is not bookmarked twice restores the bookmarks. */
  lemma {:induction false} ToggleTwice(bookmarks: seq<string>, id: string)
    requires id !in bookmarks
    ensures Toggled(Toggled(bookmarks, id), id) == bookmarks
  {
    var ne := (b: string) => b != id;
    FilterAppend(bookmarks, [id], ne);
    FilterAll(bookmarks, ne);
    assert Filter([id], ne) == [];
  }

  /** Removing a bookmark keeps the others in their order. */
  lemma {:induction false} UntoggleKeepsOrder(bookmarks: seq<string>, id: string)
    requires id in bookmarks
    ensures IsSubsequence(Toggled(bookmarks, id), bookmarks)
  {
    FilterIsSubsequence(bookmarks, (b: string) => b != id);
  }

  /** The number of records with the id. */
  function Count(rs: seq<Research>, id: string): nat
  {
    if rs == [] then 0 else (if rs[0].id == id then 1 else 0) + Count(rs[1..], id)
  }

  /** `incrementViews` adds one view per record with the id to the total. */
  lemma {:induction false} ViewAddedTotal(rs: seq<Research>, id: string)
    ensures SumOf(ViewAdded(rs, id), ViewsOf) == SumOf(rs, ViewsOf) + Count(rs, id)
  {
    if rs != [] {
      var v := ViewAdded(rs, id);
      ViewAddedTotal(rs[1..], id);
      assert v[1..] == ViewAdded(rs[1..], id);
      assert ViewsOf(v[0]) == ViewsOf(rs[0]) + (if rs[0].id == id then 1 else 0);
    }
  }

  /** `deleteResearch` removes exactly the records with the id. */
  lemma {:induction false} DeletedCount(rs: seq<Research>, id: string)
    ensures |Deleted(rs, id)| == |rs| - Count(rs, id)
    ensures Count(Deleted(rs, id), id) == 0
  {
    if rs != [] {
      DeletedCount(rs[1..], id);
      if rs[0].id != id {
        assert Deleted(rs, id) == [rs[0]] + Deleted(rs[1..], id);
        assert ([rs[0]] + Deleted(rs[1..], id))[1..] == Deleted(rs[1..], id);
      }
    }
  }

  /** An update of the first record is found at the front. */
  lemma UpdatedHead(rs: seq<Research>, id: string, u: ResearchUpdate, now: int)
    requires rs != [] && rs[0].id == id
    ensures ResearchById(Updated(rs, id, u, now), id) == Some(Merge(rs[0], u, now))
  {
    var up := Updated(rs, id, u, now);
    assert up[0] == Merge(rs[0], u, now);
  }

  /** A first record with another id is passed over, before and after the
      update. */
  lemma UpdatedTail(rs: seq<Research>, id: string, u: ResearchUpdate, now: int)
    requires rs != [] && rs[0].id != id
    ensures ResearchById(rs, id) == ResearchById(rs[1..], id)
    ensures ResearchById(Updated(rs, id, u, now), id) == ResearchById(Updated(rs[1..], id, u, now), id)
  {
    var up := Updated(rs, id, u, now);
    assert up[0] == rs[0];
    assert up[1..] == Updated(rs[1..], id, u, now);
  }

  /** After an update, the record found under the id is the first record with
      the id, with the update merged in. */
  lemma {:induction false} UpdatedLookup(rs: seq<Research>, id: string, u: ResearchUpdate, now: int)
    ensures ResearchById(rs, id).Some? ==> ResearchById(Updated(rs, id, u, now), id) == Some(Merge(ResearchById(rs, id).value, u, now))
  {
    if rs != [] {
      if rs[0].id == id {
        UpdatedHead(rs, id, u, now);
      } else {
        UpdatedTail(rs, id, u, now);
        UpdatedLookup(rs[1..], id, u, now);
      }
    }
  }

  /** After an update, the records found under other ids are unchanged. */
  lemma {:induction false} UpdatedLookupOther(rs: seq<Research>, id: string, u: ResearchUpdate, now: int, other: string)
    requires other != id
    ensures ResearchById(Updated(rs, id, u, now), other) == ResearchById(rs, other)
  {
    if rs != [] {
      var up := Updated(rs, id, u, now);
      assert up[0].id == rs[0].id;
      if rs[0].id != other {
        UpdatedLookupOther(rs[1..], id, u, now, other);
        assert up[1..] == Updated(rs[1..], id, u, now);
      } else {
        assert up[0] == rs[0];
      }
    }
  }

  /** A record added at the front is the one found under its id. */
  lemma AddedIsFound(rs: seq<Research>, r: Research)
    ensures ResearchById([r] + rs, r.id) == Some(r)
  {
  }

  // ---------------------------------------------------------------- the store

  class Store {
    var researches: seq<Research>
    var bookmarks: seq<string>
    var searchResults: seq<Research>

    constructor ()
      ensures researches == [] && bookmarks == [] && searchResults == []
    {
      researches := [];
      bookmarks := [];
      searchResults := [];
    }

    /** `search`: filter step by step, then sort. */
    method Search(filters: SearchFilters)
      modifies this
      ensures searchResults == SearchResults(researches, filters)
      ensures researches == old(researches) && bookmarks == old(bookmarks)
    {
      var results := researches;
      results := Narrow(results, filters, Query);
      results := Narrow(results, filters, TitleField);
      results := Narrow(results, filters, KeywordsField);
      results := Narrow(results, filters, AuthorField);
      results := Narrow(results, filters, AbstractField);
      results := Narrow(results, filters, StrandField);
      results := Narrow(results, filters, LabelField);
      results := Narrow(results, filters, YearField);
      match filters.sortBy {
        case Date => results := SortDescending(results, (r: Research) => Key(Date, r));
        case Views => results := SortDescending(results, (r: Research) => Key(Views, r));
        case Relevance =>
      }
      searchResults := results;
    }

    /** `addResearch`. Without a user, or when the upload or the insert
        fails, nothing is sent or nothing changes; otherwise the new record is
        put in front. `uploadOk`, `publicUrl` and `inserted` are the storage
        and database answers. */
    method AddResearch(user: Option<User>, data: Research, file: Option<string>,
                       uploadOk: bool, publicUrl: string, inserted: Option<ResearchRow>)
      returns (sent: Option<ResearchInsert>, added: Option<Research>)
      modifies this
      ensures user.None? || (file.Some? && !uploadOk) ==> sent.None? && added.None? && researches == old(researches)
      ensures user.Some? && (file.None? || uploadOk) ==>
                sent == Some(InsertPayload(data, user.value,
                                           if file.Some? then Some(StoredFile(publicUrl, file.value)) else None))
      ensures sent.Some? && inserted.None? ==> added.None? && researches == old(researches)
      ensures sent.Some? && inserted.Some? ==>
                added == Some(NewResearch(inserted.value, user.value)) && researches == [added.value] + old(researches)
      ensures bookmarks == old(bookmarks) && searchResults == old(searchResults)
    {
      if user.None? {
        return None, None;
      }
      var stored: Option<StoredFile> := None;
      if file.Some? {
        if !uploadOk {
          return None, None;
        }
        stored := Some(StoredFile(publicUrl, file.value));
      }
      sent := Some(InsertPayload(data, user.value, stored));
      if inserted.None? {
        return sent, None;
      }
      var newResearch := NewResearch(inserted.value, user.value);
      researches := [newResearch] + researches;
      added := Some(newResearch);
    }

    /** `updateResearch` once the backend has answered `ok`. */
    method UpdateResearch(id: string, updates: ResearchUpdate, ok: bool, now: int)
      modifies this
      ensures researches == if ok then Updated(old(researches), id, updates, now) else old(researches)
      ensures bookmarks == old(bookmarks) && searchResults == old(searchResults)
    {
      if !ok {
        return;
      }
      researches := Updated(researches, id, updates, now);
    }

    /** `deleteResearch` once the backend has answered `ok`. */
    method DeleteResearch(id: string, ok: bool)
      modifies this
      ensures researches == if ok then Deleted(old(researches), id) else old(researches)
      ensures bookmarks == old(bookmarks) && searchResults == old(searchResults)
    {
      if !ok {
        return;
      }
      researches := Deleted(researches, id);
    }

    /** `toggleBookmark`: nothing without a user or when the backend fails. */
    method ToggleBookmark(user: Option<User>, researchId: string, ok: bool)
      modifies this
      ensures bookmarks == if user.Some? && ok then Toggled(old(bookmarks), researchId) else old(bookmarks)
      ensures researches == old(researches) && searchResults == old(searchResults)
    {
      if user.None? {
        return;
      }
      var isCurrentlyBookmarked := researchId in bookmarks;
      if isCurrentlyBookmarked {
        if ok {
          bookmarks := Filter(bookmarks, (b: string) => b != researchId);
        }
      } else {
        if ok {
          bookmarks := bookmarks + [researchId];
        }
      }
    }

    /** `incrementViews`: nothing for an unknown id or when the backend fails. */
    method IncrementViews(id: string, ok: bool)
      modifies this
      ensures researches == if ResearchById(old(researches), id).Some? && ok then ViewAdded(old(researches), id)
                            else old(researches)
      ensures bookmarks == old(bookmarks) && searchResults == old(searchResults)
    {
      var research := ResearchById(researches, id);
      if research.None? {
        return;
      }
      if ok {
        researches := ViewAdded(researches, id);
      }
    }

    /** `isBookmarked`. */
    function IsBookmarked(researchId: string): (b: bool)
      reads this
      ensures b <==> researchId in bookmarks
    {
      researchId in bookmarks
    }
  }
}
