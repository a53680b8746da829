/** The quick filters of the search page
    (src/components/research/QuickFilters.tsx): the strand chips, the type and
    year selects, and "Clear all". Each handler hands a new criteria record
    to the page; the year options are those of `AcademicYears` from 2020. */
module QuickFilters {
  import opened Wrappers
  import opened Types

  /** Some quick filter is set to something other than 'all'. */
  predicate HasActiveFilters(f: SearchFilters)
  {
    f.strand != All || f.researchLabel != All || f.academicYear != All
  }

  /** A strand chip is highlighted when it is the chosen strand. */
  predicate ChipSelected(f: SearchFilters, s: ResearchStrand)
  {
    f.strand == Only(s)
  }

  /** `handleStrandClick`: the chosen strand is cleared back to 'all', any
      other strand is chosen; nothing else changes. */
  function StrandClicked(f: SearchFilters, s: ResearchStrand): (r: SearchFilters)
    ensures ChipSelected(r, s) <==> !ChipSelected(f, s)
    ensures ChipSelected(f, s) ==> r.strand == All
    ensures forall t :: t != s ==> !ChipSelected(r, t)
    ensures r == f.(strand := r.strand)
  {
    f.(strand := if f.strand == Only(s) then All else Only(s))
  }

  /** Clicking a chip twice comes back to where it started when the chip was
      chosen, and to 'all' otherwise. */
  lemma StrandClickedTwice(f: SearchFilters, s: ResearchStrand)
    ensures StrandClicked(StrandClicked(f, s), s) == if ChipSelected(f, s) then f else f.(strand := All)
  {
  }

  /** `clearFilters`: the three quick filters back to 'all', the text criteria
      and the sort order as they were. */
  function ClearFilters(f: SearchFilters): (r: SearchFilters)
    ensures !HasActiveFilters(r)
    ensures r.query == f.query && r.title == f.title && r.keywords == f.keywords
    ensures r.author == f.author && r.abstractText == f.abstractText && r.sortBy == f.sortBy
  {
    f.(strand := All, researchLabel := All, academicYear := All)
  }

  /** Clearing is idempotent and does nothing when no quick filter is set. */
  lemma ClearFiltersIdempotent(f: SearchFilters)
    ensures ClearFilters(ClearFilters(f)) == ClearFilters(f)
    ensures !HasActiveFilters(f) ==> ClearFilters(f) == f
  {
  }

  /** The type select's `onValueChange`: "all" stores 'all', any other option
      stores that label. The select offers only "all" and the label values. */
  function LabelChosen(f: SearchFilters, value: string): (r: SearchFilters)
    requires value == "all" || LabelOfValue(value).Some?
    ensures r.researchLabel == All <==> value == "all"
    ensures r.researchLabel.Only? ==> LabelValue(r.researchLabel.value) == value
    ensures r == f.(researchLabel := r.researchLabel)
  {
    f.(researchLabel := if value == "all" then All else Only(LabelOfValue(value).value))
  }

  /** The year select's `onValueChange`: the option as chosen. */
  function YearChosen(f: SearchFilters, value: string): (r: SearchFilters)
    ensures r.academicYear == All <==> value == "all"
    ensures r.academicYear.Only? ==> r.academicYear.value == value
    ensures r == f.(academicYear := r.academicYear)
  {
    f.(academicYear := if value == "all" then All else Only(value))
  }

  /** The value the type select shows: an unset label shows as "all". A
      chosen label is never empty, so the fallback for an empty value cannot
      arise here. */
  function LabelSelectValue(f: SearchFilters): string
  {
    match f.researchLabel
    case Only(l) => LabelValue(l)
    case _ => "all"
  }

  /** The value the year select shows: an unset or empty year shows as
      "all". */
  function YearSelectValue(f: SearchFilters): string
  {
    match f.academicYear
    case Only(y) => if y == "" then "all" else y
    case _ => "all"
  }

  /** Each select shows the option just chosen; an empty year, which no
      option offers, would show as "all". */
  lemma SelectShowsChoice(f: SearchFilters, labelValue: string, year: string)
    requires labelValue == "all" || LabelOfValue(labelValue).Some?
    ensures LabelSelectValue(LabelChosen(f, labelValue)) == labelValue
    ensures YearSelectValue(YearChosen(f, year)) == if year == "" then "all" else year
  {
  }
}
