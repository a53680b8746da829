/** The upload form (src/pages/Upload.tsx): which users may use it, which
    files it accepts, how a text-extraction result fills it, when citations
    are regenerated, and the validation that precedes an upload. The clock
    (the current year) is a parameter; the extraction and the store are the
    `OcrService` and `ResearchStore` models, whose answers come in as
    parameters. */
module Upload {
  import opened Wrappers
  import opened Text
  import opened Seqs
  import opened Types
  import opened CitationGenerator
  import opened AcademicYears

  // ---------------------------------------------------------------- access

  datatype Access = Waiting | ToLogin | ToDashboard | Allowed

  /** The redirect effect: signed-out visitors go to the login page, users
      who are neither students nor administrators to their dashboard. */
  function UploadAccess(authLoading: bool, isAuthenticated: bool, user: Option<User>): (a: Access)
    ensures a == Allowed <==> !authLoading && isAuthenticated && user.Some? && user.value.role in {Student, Admin}
    ensures a == ToLogin <==> !authLoading && !isAuthenticated
  {
    if authLoading then Waiting
    else if !isAuthenticated then ToLogin
    else if user.None? || (user.value.role != Student && user.value.role != Admin) then ToDashboard
    else Allowed
  }

  // ---------------------------------------------------------------- files

  /** What the form knows of a chosen file. */
  datatype FileInfo = FileInfo(name: string, mimeType: string, size: nat)

  const PdfType := "application/pdf"
  const MaxFileSize: nat := 50 * 1024 * 1024
  const NotPdfMessage := "Only PDF files are allowed."
  const TooLargeMessage := "File size must be less than 50MB."

  /** Why a file is refused: the type is checked before the size. */
  function FileProblem(f: FileInfo): (r: Option<string>)
    ensures r.None? <==> f.mimeType == PdfType && f.size <= MaxFileSize
    ensures f.mimeType != PdfType ==> r == Some(NotPdfMessage)
    ensures f.mimeType == PdfType && f.size > MaxFileSize ==> r == Some(TooLargeMessage)
  {
    if f.mimeType != PdfType then Some(NotPdfMessage)
    else if f.size > MaxFileSize then Some(TooLargeMessage)
    else None
  }

  // ---------------------------------------------------------------- keywords

  /** The keyword list of the form: the comma-separated pieces, trimmed,
      empty ones dropped. */
  function SplitKeywords(s: string): (r: seq<string>)
    ensures forall i :: 0 <= i < |r| ==> r[i] != "" && IsTrimmed(r[i]) && ',' !in r[i]
  {
    var pieces := Split(s, {','});
    var trimmed := Map(Trim, pieces);
    forall i | 0 <= i < |trimmed|
      ensures IsTrimmed(trimmed[i]) && ',' !in trimmed[i]
    {
      TrimIsTrimmed(pieces[i]);
      if ',' in trimmed[i] {
        TrimKeepsChars(pieces[i], ',');
      }
    }
    Filter(trimmed, (k: string) => k != "")
  }

  /** Keywords usable in the form: non-empty, trimmed, without commas. */
  predicate CleanKeywords(ks: seq<string>)
  {
    forall i :: 0 <= i < |ks| ==> ks[i] != "" && IsTrimmed(ks[i]) && ',' !in ks[i]
  }

  /** `", "` between pieces is `","` between the pieces after the first,
      each with a leading blank. */
  function Blanked(ks: seq<string>): (r: seq<string>)
    ensures |r| == |ks|
    ensures forall i :: 0 <= i < |ks| ==> r[i] == " " + ks[i]
  {
    seq(|ks|, i requires 0 <= i < |ks| => " " + ks[i])
  }

  lemma JoinPrefixFirst(p: string, a: string, rest: seq<string>, sep: string)
    ensures Join([p + a] + rest, sep) == p + Join([a] + rest, sep)
  {
    assert ([p + a] + rest)[1..] == rest == ([a] + rest)[1..];
  }

  lemma {:induction false} JoinCommaBlank(ks: seq<string>)
    requires |ks| >= 1
    ensures Join(ks, ", ") == Join([ks[0]] + Blanked(ks[1..]), ",")
    decreases |ks|
  {
    if |ks| >= 2 {
      var ys := ks[1..];
      JoinCommaBlank(ys);
      assert ys[1..] == ks[2..];
      JoinPrefixFirst(" ", ys[0], Blanked(ys[1..]), ",");
      assert Blanked(ys) == [" " + ys[0]] + Blanked(ys[1..]);
      var parts := [ks[0]] + Blanked(ys);
      assert parts[1..] == Blanked(ys);
      calc {
        Join(ks, ", ");
        ks[0] + ", " + Join(ys, ", ");
        ks[0] + "," + (" " + Join([ys[0]] + Blanked(ys[1..]), ","));
        ks[0] + "," + Join(Blanked(ys), ",");
        Join(parts, ",");
      }
    } else {
      assert Blanked(ks[1..]) == [];
      assert [ks[0]] + Blanked(ks[1..]) == ks;
    }
  }

  /** Keywords joined with `", "` by the extraction merge come back unchanged
      from the submit split. */
  lemma {:induction false} SplitKeywordsOfJoin(ks: seq<string>)
    requires |ks| >= 1 && CleanKeywords(ks)
    ensures SplitKeywords(Join(ks, ", ")) == ks
  {
    var parts := [ks[0]] + Blanked(ks[1..]);
    JoinCommaBlank(ks);
    BlankedParts(ks);
    SplitJoin(parts, ',');
    assert Split(Join(ks, ", "), {','}) == parts;
    FilterAll(ks, (k: string) => k != "");
  }

  /** The pieces between the commas hold no comma and trim back to the
      keywords. */
  lemma {:induction false} BlankedParts(ks: seq<string>)
    requires |ks| >= 1 && CleanKeywords(ks)
    ensures var parts := [ks[0]] + Blanked(ks[1..]);
      && (forall i :: 0 <= i < |parts| ==> ',' !in parts[i])
      && Map(Trim, parts) == ks
  {
    var parts := [ks[0]] + Blanked(ks[1..]);
    forall i | 0 <= i < |parts|
      ensures ',' !in parts[i] && Trim(parts[i]) == ks[i]
    {
      if i == 0 {
        TrimOfTrimmed(ks[0]);
      } else {
        assert parts[i] == " " + ks[i];
        TrimLeadingBlank(ks[i]);
      }
    }
  }

  // ---------------------------------------------------------------- years

  /** `parseInt(s)` without a radix, for decimal text: leading blanks, an
      optional sign, then the longest run of digits; `None` is NaN. A "0x"
      prefix, which `parseInt` reads as hexadecimal, is not modelled. */
  function ParseInt(s: string): (r: Option<int>)
    ensures r.None? <==> DigitPrefixLength(Unsigned(TrimStart(s))) == 0
  {
    var t := TrimStart(s);
    var body := Unsigned(t);
    var n := DigitPrefixLength(body);
    if n == 0 then None
    else
      var value: int := DigitsValue(body[..n]);
      if |t| > 0 && t[0] == '-' then Some(-value) else Some(value)
  }

  /** The text after an optional leading sign. */
  function Unsigned(t: string): (r: string)
    ensures |r| <= |t|
  {
    if |t| > 0 && (t[0] == '-' || t[0] == '+') then t[1..] else t
  }

  /** The number an extracted year reads as: `parseInt` of a non-empty
      year, `None` when there is none or it is NaN. */
  function YearNumber(year: Option<string>): Option<int>
  {
    if year.Some? && year.value != "" then ParseInt(year.value) else None
  }

  /** The year the citation effect reads from the form: the piece after the
      first '-' of the academic year (empty when there is none), or the
      current year when no academic year is chosen. */
  function CitationYear(academicYear: string, currentYear: nat): (r: string)
    ensures academicYear == "" ==> r == NatToString(currentYear)
  {
    if academicYear == "" then NatToString(currentYear)
    else
      var pieces := Split(academicYear, {'-'});
      if |pieces| > 1 then pieces[1] else ""
  }

  lemma {:induction false} DigitPrefixOfDigits(s: string)
    requires AllDigits(s)
    ensures DigitPrefixLength(s) == |s|
  {
    if s != [] {
      DigitPrefixOfDigits(s[1..]);
    }
  }

  /** `parseInt` reads back what `${n}` prints. */
  lemma ParseIntOfNat(n: nat)
    ensures ParseInt(NatToString(n)) == Some(n)
  {
    var s := NatToString(n);
    assert !IsSpace(s[0]);
    assert SkipSpaces(s, 0) == 0;
    assert TrimStart(s) == s;
    assert Unsigned(s) == s;
    DigitPrefixOfDigits(s);
    assert s[..|s|] == s;
    DigitsValueOfNatToString(n);
  }

  /** The academic year of a positive year splits at '-' into the two
      printed years. */
  lemma {:induction false} AcademicYearPieces(year: nat)
    requires year >= 1
    ensures Split(AcademicYearOf(year), {'-'}) == [NatToString(year - 1), NatToString(year)]
  {
    var a := NatToString(year - 1);
    var b := NatToString(year);
    DigitsHaveNoDash(a);
    DigitsHaveNoDash(b);
    assert [a, b][1..] == [b];
    assert Join([a, b], "-") == a + "-" + b;
    SplitJoin([a, b], '-');
  }

  lemma DigitsHaveNoDash(s: string)
    requires AllDigits(s)
    ensures '-' !in s
  {
  }

  /** An extracted year y becomes the academic year "(y-1)-y", from which the
      citation effect reads y back. */
  lemma {:induction false} YearRoundTrip(year: nat, currentYear: nat)
    requires year >= 1
    ensures CitationYear(AcademicYearOf(year), currentYear) == NatToString(year)
    ensures ParseInt(CitationYear(AcademicYearOf(year), currentYear)) == Some(year)
  {
    AcademicYearPieces(year);
    ParseIntOfNat(year);
  }

  // ---------------------------------------------------------------- validation

  /** The form fields that `handleSubmit` checks, in its order. */
  datatype Field = TitleField | KeywordsField | AbstractField | LabelField | StrandField | YearField

  const CheckOrder := [TitleField, KeywordsField, AbstractField, LabelField, StrandField, YearField]

  /** The values the checks read. */
  datatype Draft = Draft(
    title: string,
    keywords: string,
    abstractText: string,
    researchLabel: Option<ResearchLabel>,
    strand: Option<ResearchStrand>,
    academicYear: string)

  /** A field is missing when blank (text: `!s.trim()`, which holds exactly
      when every character is whitespace, see `Text.TrimEmptyIffAllSpace`)
      or not chosen (selects). */
  predicate Missing(d: Draft, f: Field)
  {
    match f
    case TitleField => AllSpace(d.title)
    case KeywordsField => AllSpace(d.keywords)
    case AbstractField => AllSpace(d.abstractText)
    case LabelField => d.researchLabel.None?
    case StrandField => d.strand.None?
    case YearField => d.academicYear == ""
  }

  function Message(f: Field): string
  {
    match f
    case TitleField => "Please enter a title."
    case KeywordsField => "Please enter at least one keyword."
    case AbstractField => "Please enter an abstract."
    case LabelField => "Please select a research type."
    case StrandField => "Please select a strand."
    case YearField => "Please select an academic year."
  }

  /** The first failing check of `handleSubmit`, if any. */
  function FirstMissing(d: Draft): Option<Field>
  {
    if AllSpace(d.title) then Some(TitleField)
    else if AllSpace(d.keywords) then Some(KeywordsField)
    else if AllSpace(d.abstractText) then Some(AbstractField)
    else if d.researchLabel.None? then Some(LabelField)
    else if d.strand.None? then Some(StrandField)
    else if d.academicYear == "" then Some(YearField)
    else None
  }

  /** The check order: the check that fails is that of field `CheckOrder[k]`
      exactly when that field is missing and every earlier one is filled,
      and none fails exactly when no field is missing. */
  lemma ValidationFirstFailure(d: Draft, k: int)
    requires 0 <= k < |CheckOrder|
    ensures (Missing(d, CheckOrder[k]) && forall j :: 0 <= j < k ==> !Missing(d, CheckOrder[j]))
            <==> FirstMissing(d) == Some(CheckOrder[k])
    ensures FirstMissing(d).None? <==> forall j :: 0 <= j < |CheckOrder| ==> !Missing(d, CheckOrder[j])
  {
    var m0, m1, m2 := Missing(d, TitleField), Missing(d, KeywordsField), Missing(d, AbstractField);
    var m3, m4, m5 := Missing(d, LabelField), Missing(d, StrandField), Missing(d, YearField);
    assert CheckOrder[0] == TitleField && CheckOrder[1] == KeywordsField && CheckOrder[2] == AbstractField;
    assert CheckOrder[3] == LabelField && CheckOrder[4] == StrandField && CheckOrder[5] == YearField;
    assert FirstMissing(d) == if m0 then Some(TitleField) else if m1 then Some(KeywordsField)
      else if m2 then Some(AbstractField) else if m3 then Some(LabelField)
      else if m4 then Some(StrandField) else if m5 then Some(YearField) else None;
  }

  // ---------------------------------------------------------------- citations

  const DefaultInstitution := "St. Vincent College"

  /** What the citation effect passes to `generateCitations`, or `None` when
      it does not run: it needs a title and either extracted authors or a
      signed-in user's name. */
  function CitationInput(title: string, extractedAuthors: seq<string>, academicYear: string,
                         researchLabel: Option<ResearchLabel>, user: Option<User>, currentYear: nat): (r: Option<CitationData>)
    ensures r.Some? <==> title != "" && (|extractedAuthors| > 0 || (user.Some? && user.value.fullName != ""))
    ensures r.Some? ==> r.value.title == title && r.value.researchType == researchLabel
    ensures r.Some? && |extractedAuthors| > 0 ==> r.value.authors == extractedAuthors
    ensures r.Some? && |extractedAuthors| == 0 ==> r.value.authors == [user.value.fullName]
    ensures r.Some? ==> (r.value.institution ==
              Some(if user.Some? && Present(user.value.affiliation) then user.value.affiliation.value else DefaultInstitution))
    ensures r.Some? ==> r.value.year == CitationYear(academicYear, currentYear)
  {
    if title != "" && (|extractedAuthors| > 0 || (user.Some? && user.value.fullName != "")) then
      var authors := if |extractedAuthors| > 0 then extractedAuthors
                     else [if user.Some? && user.value.fullName != "" then user.value.fullName else "Unknown"];
      var institution := if user.Some? && Present(user.value.affiliation) then user.value.affiliation.value
                         else DefaultInstitution;
      Some(CitationData(authors, title, CitationYear(academicYear, currentYear), Some(institution), researchLabel))
    else None
  }

  // ---------------------------------------------------------------- the form

  const UntitledDocument := "Untitled Document"
  const UploadFailedMessage := "Failed to upload research. Please try again."

  /** The title after a merge: replaced only by a non-empty title that is
      not the parser's placeholder. */
  function MergedTitle(current: string, found: string): (r: string)
    ensures found != "" && found != UntitledDocument ==> r == found
    ensures found == "" || found == UntitledDocument ==> r == current
  {
    if found != "" && found != UntitledDocument then found else current
  }

  /** The abstract after a merge: replaced only by a non-empty one. */
  function MergedAbstract(current: string, found: string): (r: string)
    ensures r == found || r == current
    ensures r == current <== found == ""
    ensures found != "" ==> r == found
  {
    if found != "" then found else current
  }

  /** The keywords field after a merge: the found keywords joined with
      `", "`, unless none were found. */
  function MergedKeywords(current: string, found: seq<string>): (r: string)
    ensures found == [] ==> r == current
    ensures found != [] ==> r == Join(found, ", ")
  {
    if |found| > 0 then Join(found, ", ") else current
  }

  /** The extracted authors after a merge: replaced unless none were found. */
  function MergedAuthors(current: seq<string>, found: seq<string>): (r: seq<string>)
    ensures found == [] ==> r == current
    ensures found != [] ==> r == found
  {
    if |found| > 0 then found else current
  }

  /** The academic year after a merge: derived from the found year when it
      reads as a number. */
  function MergedAcademicYear(current: string, found: Option<string>): (r: string)
    ensures YearNumber(found).None? ==> r == current
    ensures YearNumber(found).Some? ==> r == AcademicYearOf(YearNumber(found).value)
  {
    if found.Some? && found.value != "" then
      var year := ParseInt(found.value);
      if year.Some? then AcademicYearOf(year.value) else current
    else current
  }

  class UploadForm {
    var title: string
    var keywords: string
    var abstractText: string
    var file: Option<FileInfo>
    var error: string
    var researchLabel: Option<ResearchLabel>
    var strand: Option<ResearchStrand>
    var academicYear: string
    var citationApa: string
    var citationMla: string
    var extractedAuthors: seq<string>
    var showCitations: bool

    constructor ()
      ensures title == "" && keywords == "" && abstractText == "" && file.None? && error == ""
      ensures researchLabel.None? && strand.None? && academicYear == ""
      ensures citationApa == "" && citationMla == "" && extractedAuthors == [] && !showCitations
    {
      title, keywords, abstractText, file, error := "", "", "", None, "";
      researchLabel, strand, academicYear := None, None, "";
      citationApa, citationMla, extractedAuthors, showCitations := "", "", [], false;
    }

    function Snapshot(): Draft
      reads this
    {
      Draft(title, keywords, abstractText, researchLabel, strand, academicYear)
    }

    /** `handleFileSelect` and `handleDrop`: no file changes nothing; a
        refused file sets the error and keeps the current file; an accepted
        one replaces it and clears the error. */
    method SelectFile(selected: Option<FileInfo>)
      modifies this
      ensures selected.None? ==> file == old(file) && error == old(error)
      ensures selected.Some? && FileProblem(selected.value).Some? ==>
                file == old(file) && error == FileProblem(selected.value).value
      ensures selected.Some? && FileProblem(selected.value).None? ==> file == selected && error == ""
      ensures Snapshot() == old(Snapshot()) && citationApa == old(citationApa) && citationMla == old(citationMla)
      ensures extractedAuthors == old(extractedAuthors) && showCitations == old(showCitations)
    {
      if selected.None? {
        return;
      }
      var f := selected.value;
      if f.mimeType != PdfType {
        error := NotPdfMessage;
        return;
      }
      if f.size > MaxFileSize {
        error := TooLargeMessage;
        return;
      }
      file := selected;
      error := "";
    }

    /** `performOCR` once the extraction has answered: a failure changes no
        field; a result is merged into the form. */
    method MergeOcrResult(result: Result<OCRResult, string>)
      modifies this`title, this`abstractText, this`keywords, this`extractedAuthors, this`academicYear,
               this`showCitations
      ensures result.Failure? ==> unchanged(this)
      ensures result.Success? ==> title == MergedTitle(old(title), result.value.title)
      ensures result.Success? ==> abstractText == MergedAbstract(old(abstractText), result.value.abstractText)
      ensures result.Success? ==> keywords == MergedKeywords(old(keywords), result.value.keywords)
      ensures result.Success? ==> extractedAuthors == MergedAuthors(old(extractedAuthors), result.value.authors)
      ensures result.Success? ==> academicYear == MergedAcademicYear(old(academicYear), result.value.year)
      ensures result.Success? ==> showCitations
    {
      if result.Failure? {
        return;
      }
      var o := result.value;
      title := MergedTitle(title, o.title);
      abstractText := MergedAbstract(abstractText, o.abstractText);
      keywords := MergedKeywords(keywords, o.keywords);
      extractedAuthors := MergedAuthors(extractedAuthors, o.authors);
      academicYear := MergedAcademicYear(academicYear, o.year);
      showCitations := true;
    }

    /** The citation effect: when it runs, both citations are regenerated
        from the form. */
    method RegenerateCitations(user: Option<User>, currentYear: nat)
      modifies this`citationApa, this`citationMla
      ensures var input := CitationInput(title, extractedAuthors, academicYear, researchLabel, user, currentYear);
              if input.Some? then citationApa == ApaCitation(input.value) && citationMla == MlaCitation(input.value)
              else citationApa == old(citationApa) && citationMla == old(citationMla)
    {
      var input := CitationInput(title, extractedAuthors, academicYear, researchLabel, user, currentYear);
      if input.Some? {
        var citations := GenerateCitations(input.value);
        citationApa := citations.apa;
        citationMla := citations.mla;
      }
    }

    /** The record the form submits for `user`. */
    function Submission(user: User): (r: Research)
      reads this
      ensures r.keywords == SplitKeywords(keywords) && r.authorId == user.id && r.authorName == user.fullName
      ensures r.accessLevel == Some(Public) && r.abstractVisible == Some(true)
      ensures r.fileName == if file.Some? then Some(file.value.name) else None
      ensures r.title == title && r.abstractText == abstractText && r.authorAffiliation == user.affiliation
      ensures r.researchLabel == researchLabel && r.strand == strand && r.academicYear == Some(academicYear)
      ensures r.citationApa == Some(citationApa) && r.citationMla == Some(citationMla)
    {
      Research("", title, abstractText, SplitKeywords(keywords), user.id, user.fullName, user.affiliation,
               None, if file.Some? then Some(file.value.name) else None, 0, 0, 0,
               researchLabel, strand, Some(academicYear), Some(Public), Some(true),
               Some(citationApa), Some(citationMla), None)
    }

    /** `handleSubmit`: the first failing check sets its message and nothing
        is submitted; otherwise the record and the file go to the store,
        whose answer `added` decides whether the failure message is set. */
    method Submit(user: User, added: bool) returns (submitted: Option<(Research, Option<FileInfo>)>)
      modifies this
      ensures FirstMissing(old(Snapshot())).Some? ==>
                submitted.None? && error == Message(FirstMissing(old(Snapshot())).value)
      ensures FirstMissing(old(Snapshot())).None? ==>
                submitted == Some((old(Submission(user)), old(file))) &&
                error == if added then "" else UploadFailedMessage
      ensures Snapshot() == old(Snapshot()) && file == old(file)
      ensures citationApa == old(citationApa) && citationMla == old(citationMla)
      ensures extractedAuthors == old(extractedAuthors) && showCitations == old(showCitations)
    {
      error := "";
      if AllSpace(title) {
        error := Message(TitleField);
        return None;
      }
      if AllSpace(keywords) {
        error := Message(KeywordsField);
        return None;
      }
      if AllSpace(abstractText) {
        error := Message(AbstractField);
        return None;
      }
      if researchLabel.None? {
        error := Message(LabelField);
        return None;
      }
      if strand.None? {
        error := Message(StrandField);
        return None;
      }
      if academicYear == "" {
        error := Message(YearField);
        return None;
      }
      submitted := Some((Submission(user), file));
      if !added {
        error := UploadFailedMessage;
      }
    }
  }

  // ---------------------------------------------------------------- the year options read back

  /** Each option reads back, through the citation year, as its own year. */
  lemma OptionYear(currentYear: int, firstYear: int, i: int)
    requires firstYear >= 1 && 0 <= i < |YearOptions(currentYear, firstYear)|
    ensures ParseInt(CitationYear(YearOptions(currentYear, firstYear)[i], 0)) == Some(currentYear + 1 - i)
  {
    OptionAt(currentYear, firstYear, i);
    YearRoundTrip(currentYear + 1 - i, 0);
  }

  /** The years read back strictly decrease along the list. */
  lemma YearOptionsDescending(currentYear: int, firstYear: int, i: int, j: int)
    requires firstYear >= 1 && 0 <= i < j < |YearOptions(currentYear, firstYear)|
    ensures ParseInt(CitationYear(YearOptions(currentYear, firstYear)[i], 0)).Some?
    ensures ParseInt(CitationYear(YearOptions(currentYear, firstYear)[j], 0)).Some?
    ensures ParseInt(CitationYear(YearOptions(currentYear, firstYear)[j], 0)).value
            < ParseInt(CitationYear(YearOptions(currentYear, firstYear)[i], 0)).value
  {
    OptionYear(currentYear, firstYear, i);
    OptionYear(currentYear, firstYear, j);
  }
}
