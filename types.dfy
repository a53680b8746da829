/** The records of the application (src/types/index.ts) as datatypes. Dates
    are millisecond timestamps; fields the logic never reads (bio, avatar,
    created dates of users) are left out. A TypeScript field that may be
    `undefined` is an `Option`. */
module Types {
  import opened Wrappers

  datatype UserRole = Researcher | Student | Admin

  datatype ResearchLabel = PracticalResearch | Capstone | Thesis | Dissertation | OtherLabel

  /** The string a label is stored and selected as. */
  function LabelValue(l: ResearchLabel): string
  {
    match l
    case PracticalResearch => "practical_research"
    case Capstone => "capstone"
    case Thesis => "thesis"
    case Dissertation => "dissertation"
    case OtherLabel => "other"
  }

  /** The label a stored string names, if any. */
  function LabelOfValue(s: string): (r: Option<ResearchLabel>)
    ensures r.Some? ==> LabelValue(r.value) == s
  {
    if s == "practical_research" then Some(PracticalResearch)
    else if s == "capstone" then Some(Capstone)
    else if s == "thesis" then Some(Thesis)
    else if s == "dissertation" then Some(Dissertation)
    else if s == "other" then Some(OtherLabel)
    else None
  }

  /** Every label reads back from its string, and "all" names no label. */
  lemma LabelValueRoundTrip(l: ResearchLabel)
    ensures LabelOfValue(LabelValue(l)) == Some(l)
    ensures LabelOfValue("all") == None
  {
  }

  datatype ResearchStrand = STEM | HUMSS | ABM | ICT | GAS | OtherStrand

  datatype AccessLevel = Public | Authenticated | Restricted

  datatype User = User(
    id: string,
    email: string,
    fullName: string,
    role: UserRole,
    affiliation: Option<string>)

  /** A research record; `abstractText` is the `abstract` field and
      `researchLabel` the `label` field (both names are Dafny keywords). */
  datatype Research = Research(
    id: string,
    title: string,
    abstractText: string,
    keywords: seq<string>,
    authorId: string,
    authorName: string,
    authorAffiliation: Option<string>,
    fileUrl: Option<string>,
    fileName: Option<string>,
    views: nat,
    uploadDate: int,
    updatedAt: int,
    researchLabel: Option<ResearchLabel>,
    strand: Option<ResearchStrand>,
    academicYear: Option<string>,
    accessLevel: Option<AccessLevel>,
    abstractVisible: Option<bool>,
    citationApa: Option<string>,
    citationMla: Option<string>,
    isArchived: Option<bool>)

  datatype SortBy = Relevance | Date | Views

  /** A quick filter: absent (`undefined`), `'all'`, or one value. */
  datatype Choice<T> = Unset | All | Only(value: T)

  /** Search criteria. The free-text criteria are strings, with "" standing
      for both `''` and `undefined` (the code treats the two alike). */
  datatype SearchFilters = SearchFilters(
    query: string,
    title: string,
    keywords: string,
    author: string,
    abstractText: string,
    sortBy: SortBy,
    strand: Choice<ResearchStrand>,
    researchLabel: Choice<ResearchLabel>,
    academicYear: Choice<string>)

  datatype QAAnswer = QAAnswer(
    id: string,
    questionId: string,
    userId: string,
    userName: string,
    content: string,
    upvotes: nat,
    createdAt: int)

  datatype QAQuestion = QAQuestion(
    id: string,
    researchId: string,
    userId: string,
    userName: string,
    content: string,
    upvotes: nat,
    createdAt: int,
    answers: seq<QAAnswer>)

  /** What text extraction returns; `abstractText` is the abstract found. */
  datatype OCRResult = OCRResult(
    title: string,
    abstractText: string,
    keywords: seq<string>,
    authors: seq<string>,
    year: Option<string>,
    rawText: string,
    confidence: real)

  /** Input of the citation formatter; `researchType` is the `type` field. */
  datatype CitationData = CitationData(
    authors: seq<string>,
    title: string,
    year: string,
    institution: Option<string>,
    researchType: Option<ResearchLabel>)

  /** JavaScript truthiness of an optional string. */
  predicate Present(s: Option<string>)
  {
    s.Some? && s.value != ""
  }
}
