/** The academic-year options both year selects offer
    (`generateAcademicYears` in src/components/research/QuickFilters.tsx and
    in src/components/research/ResearchLabelSelect.tsx): "(y-1)-y" for every
    y from the year after the current one down to a first year, 2020 for the
    search filters and 2015 for the upload form. The current year is a
    parameter. */
module AcademicYears {
  import opened Wrappers
  import opened Text

  const QuickFilterFirstYear := 2020
  const LabelSelectFirstYear := 2015

  /** The option for the academic year ending in `year`, "(year-1)-year";
      the upload form derives the same text from an extracted year. */
  function AcademicYearOf(year: int): string
  {
    IntToString(year - 1) + "-" + IntToString(year)
  }

  /** The options for `currentYear`, newest first. */
  function YearOptions(currentYear: int, firstYear: int): seq<string>
  {
    var n := if currentYear + 2 - firstYear > 0 then currentYear + 2 - firstYear else 0;
    seq(n, i requires 0 <= i < n => AcademicYearOf(currentYear + 1 - i))
  }

  /** The loop that builds the options: one entry per year, counting down. */
  method GenerateAcademicYears(currentYear: int, firstYear: int) returns (years: seq<string>)
    ensures years == YearOptions(currentYear, firstYear)
  {
    years := [];
    var year := currentYear + 1;
    while year >= firstYear
      invariant year <= currentYear + 1 && (year >= firstYear - 1 || year == currentYear + 1)
      invariant years == YearOptions(currentYear, year + 1)
    {
      YearOptionsStep(currentYear, year);
      years := years + [AcademicYearOf(year)];
      year := year - 1;
    }
  }

  /** Lowering the first year by one appends that year's option. */
  lemma YearOptionsStep(currentYear: int, year: int)
    requires year <= currentYear + 1
    ensures YearOptions(currentYear, year) == YearOptions(currentYear, year + 1) + [AcademicYearOf(year)]
  {
    var longer := YearOptions(currentYear, year);
    var shorter := YearOptions(currentYear, year + 1);
    assert |longer| == |shorter| + 1;
    assert forall i :: 0 <= i < |shorter| ==> longer[i] == shorter[i];
    assert longer[|shorter|] == AcademicYearOf(year);
  }

  /** There are `currentYear + 2 - firstYear` options once the first year is
      reached, the newest for the coming year and the oldest for the first
      year. */
  lemma YearOptionsEnds(currentYear: int, firstYear: int)
    requires currentYear + 1 >= firstYear
    ensures |YearOptions(currentYear, firstYear)| == currentYear + 2 - firstYear
    ensures YearOptions(currentYear, firstYear)[0] == IntToString(currentYear) + "-" + IntToString(currentYear + 1)
    ensures YearOptions(currentYear, firstYear)[currentYear + 1 - firstYear] == AcademicYearOf(firstYear)
  {
    assert YearOptions(currentYear, firstYear)[0] == AcademicYearOf(currentYear + 1);
  }

  lemma OptionAt(currentYear: int, firstYear: int, i: int)
    requires firstYear >= 1 && 0 <= i < |YearOptions(currentYear, firstYear)|
    ensures currentYear + 1 - i >= firstYear
    ensures YearOptions(currentYear, firstYear)[i] == AcademicYearOf(currentYear + 1 - i)
  {
  }

  /** No option appears twice. */
  lemma YearOptionsDistinct(currentYear: int, firstYear: int, i: int, j: int)
    requires firstYear >= 1 && 0 <= i < j < |YearOptions(currentYear, firstYear)|
    ensures YearOptions(currentYear, firstYear)[i] != YearOptions(currentYear, firstYear)[j]
  {
    OptionAt(currentYear, firstYear, i);
    OptionAt(currentYear, firstYear, j);
    if YearOptions(currentYear, firstYear)[i] == YearOptions(currentYear, firstYear)[j] {
      AcademicYearOfInjective(currentYear + 1 - i, currentYear + 1 - j);
    }
  }

  /** Different years give different options. */
  lemma AcademicYearOfInjective(x: int, y: int)
    requires x >= 1 && y >= 1 && AcademicYearOf(x) == AcademicYearOf(y)
    ensures x == y
  {
    DigitsBeforeDash(NatToString(x - 1), NatToString(x), NatToString(y - 1), NatToString(y));
    NatToStringInjective(x - 1, y - 1);
  }

  /** The digits before the first '-' are determined by the whole text. */
  lemma DigitsBeforeDash(p: string, a: string, q: string, b: string)
    requires AllDigits(p) && AllDigits(q) && p + "-" + a == q + "-" + b
    ensures p == q
  {
    var s := p + "-" + a;
    var n := DigitPrefixLength(s);
    assert s[|p|] == '-' && s[|q|] == '-';
    assert forall i :: 0 <= i < |p| ==> s[i] == p[i];
    assert forall i :: 0 <= i < |q| ==> s[i] == q[i];
    assert n == |p| && n == |q|;
    assert p == s[..n] == q;
  }

  /** The decimal forms of the first years. */
  lemma PrintedYears()
    ensures IntToString(2014) == "2014" && IntToString(2015) == "2015"
    ensures IntToString(2019) == "2019" && IntToString(2020) == "2020"
  {
    assert NatToString(20) == "20";
    assert NatToString(201) == "201" && NatToString(202) == "202";
  }

  /** The search filters offer `currentYear - 2018` options, down to
      "2019-2020". */
  lemma QuickFilterYears(currentYear: int)
    requires currentYear >= 2019
    ensures |YearOptions(currentYear, QuickFilterFirstYear)| == currentYear - 2018
    ensures YearOptions(currentYear, QuickFilterFirstYear)[currentYear - 2019] == "2019-2020"
  {
    YearOptionsEnds(currentYear, QuickFilterFirstYear);
    PrintedYears();
  }

  /** The upload form offers `currentYear - 2013` options, down to
      "2014-2015". */
  lemma LabelSelectYears(currentYear: int)
    requires currentYear >= 2014
    ensures |YearOptions(currentYear, LabelSelectFirstYear)| == currentYear - 2013
    ensures YearOptions(currentYear, LabelSelectFirstYear)[currentYear - 2014] == "2014-2015"
  {
    YearOptionsEnds(currentYear, LabelSelectFirstYear);
    PrintedYears();
  }
}
