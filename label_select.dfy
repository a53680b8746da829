/** The classification selects of the upload form
    (src/components/research/ResearchLabelSelect.tsx): the table of research
    types, the table of strands, and the type shown as selected. The year
    options are those of `AcademicYears` from 2015. */
module LabelSelect {
  import opened Wrappers
  import opened Seqs
  import opened Types

  datatype LabelOption = LabelOption(value: ResearchLabel, name: string, color: string)

  datatype StrandOption = StrandOption(value: ResearchStrand, name: string)

  const Labels: seq<LabelOption> := [
    LabelOption(PracticalResearch, "Practical Research", "bg-blue-100 text-blue-700"),
    LabelOption(Capstone, "Capstone", "bg-purple-100 text-purple-700"),
    LabelOption(Thesis, "Thesis", "bg-green-100 text-green-700"),
    LabelOption(Dissertation, "Dissertation", "bg-orange-100 text-orange-700"),
    LabelOption(OtherLabel, "Other", "bg-gray-100 text-gray-700")
  ]

  const Strands: seq<StrandOption> := [
    StrandOption(STEM, "STEM - Science, Technology, Engineering & Mathematics"),
    StrandOption(HUMSS, "HUMSS - Humanities and Social Sciences"),
    StrandOption(ABM, "ABM - Accountancy, Business and Management"),
    StrandOption(ICT, "ICT - Information and Communication Technology"),
    StrandOption(GAS, "GAS - General Academic Strand"),
    StrandOption(OtherStrand, "Other")
  ]

  /** Every research type is offered exactly once: at its own index. */
  lemma LabelsListEachOnce(l: ResearchLabel, i: int)
    requires 0 <= i < |Labels|
    ensures Labels[i].value == l <==> i == LabelIndex(l)
  {
  }

  /** Every strand is offered exactly once: at its own index. */
  lemma StrandsListEachOnce(s: ResearchStrand, i: int)
    requires 0 <= i < |Strands|
    ensures Strands[i].value == s <==> i == StrandIndex(s)
  {
  }

  /** `selectedLabel`: the table entry of the chosen type; none while no type
      is chosen (`''`). */
  function SelectedLabel(chosen: Option<ResearchLabel>): (r: Option<LabelOption>)
    ensures r.None? <==> chosen.None?
    ensures r.Some? ==> r.value in Labels && r.value.value == chosen.value
  {
    if chosen.None? then None
    else
      assert Labels[LabelIndex(chosen.value)].value == chosen.value;
      Find(Labels, (o: LabelOption) => o.value == chosen.value)
  }

  /** Where a type sits in the table. */
  function LabelIndex(l: ResearchLabel): (i: nat)
    ensures i < |Labels| && Labels[i].value == l
  {
    match l
    case PracticalResearch => 0
    case Capstone => 1
    case Thesis => 2
    case Dissertation => 3
    case OtherLabel => 4
  }

  /** Where a strand sits in the table. */
  function StrandIndex(s: ResearchStrand): (i: nat)
    ensures i < |Strands| && Strands[i].value == s
  {
    match s
    case STEM => 0
    case HUMSS => 1
    case ABM => 2
    case ICT => 3
    case GAS => 4
    case OtherStrand => 5
  }
}
