/** The citation formatter (src/lib/citation-generator.ts): APA and MLA
    strings for a `CitationData`. It follows the code, which departs from the
    two style guides in places (no comma before "&" for two APA authors, three
    MLA authors listed in full, only the last word of a name taken as the
    surname). */
module CitationGenerator {
  import opened Wrappers
  import opened Text
  import opened Seqs
  import opened Types

  /** `n.charAt(0).toUpperCase() + '.'`. */
  function Initial(word: string): (r: string)
    ensures 1 <= |r| <= 2 && r[|r| - 1] == '.'
  {
    (if word == [] then "" else [Upper(word[0])]) + "."
  }

  /** An author name in APA form: the last word, a comma, then the initials of
      the earlier words. */
  function FormatAuthorApa(name: string): string
  {
    var parts := Words(name);
    if |parts| == 1 then parts[0]
    else parts[|parts| - 1] + ", " + Join(Map(Initial, parts[..|parts| - 1]), " ")
  }

  /** An author name in MLA form; only the first author is inverted, and a later
      author keeps the name exactly as given. */
  function FormatAuthorMla(name: string, isFirst: bool): string
  {
    var parts := Words(name);
    if |parts| == 1 then parts[0]
    else if isFirst then parts[|parts| - 1] + ", " + Join(parts[..|parts| - 1], " ")
    else name
  }

  /** The bracketed kind of work in an APA citation. */
  function TypeLabel(t: Option<ResearchLabel>): (r: string)
    ensures r == "Unpublished manuscript" <==> t == None || t == Some(OtherLabel)
    ensures t == Some(Thesis) ==> r == "Master's thesis"
    ensures t == Some(Dissertation) ==> r == "Doctoral dissertation"
    ensures t == Some(Capstone) ==> r == "Capstone project"
    ensures t == Some(PracticalResearch) ==> r == "Research paper"
  {
    match t
    case Some(Thesis) => "Master's thesis"
    case Some(Dissertation) => "Doctoral dissertation"
    case Some(Capstone) => "Capstone project"
    case Some(PracticalResearch) => "Research paper"
    case _ => "Unpublished manuscript"
  }

  function ApaNames(authors: seq<string>): seq<string>
  {
    Map(FormatAuthorApa, authors)
  }

  /** The author part of an APA citation, by number of authors. */
  function ApaAuthors(authors: seq<string>): string
  {
    ApaAuthorList(ApaNames(authors))
  }

  /** How the formatted names of an APA author list are put together: one or
      two names, up to twenty names with ", & " before the last, and above
      twenty the first nineteen, ", ... " and the last. */
  function ApaAuthorList(names: seq<string>): string
  {
    var n := |names|;
    if n == 0 then "Unknown Author"
    else if n == 1 then names[0]
    else if n == 2 then names[0] + " & " + names[1]
    else if n <= 20 then Join(names[..n - 1], ", ") + ", & " + names[n - 1]
    else Join(names[..19], ", ") + ", ... " + names[n - 1]
  }

  /** `generateAPACitation`. */
  function ApaCitation(data: CitationData): string
  {
    ApaLayout(ApaAuthors(data.authors), data.year, data.title, TypeLabel(data.researchType), data.institution)
  }

  /** The APA template around an author string and a type label. */
  function ApaLayout(authorStr: string, year: string, title: string, kind: string,
                     institution: Option<string>): string
  {
    var yearPart := if year != "" then "(" + year + ")" else "(n.d.)";
    var institutionPart := if Present(institution) then " " + institution.value + "." else "";
    authorStr + " " + yearPart + ". " + title + " [" + kind + "]." + institutionPart
  }

  /** The author part of an MLA citation, by number of authors. */
  function MlaAuthors(authors: seq<string>): string
  {
    var n := |authors|;
    if n == 0 then "Unknown Author"
    else if n == 1 then FormatAuthorMla(authors[0], true)
    else if n == 2 then FormatAuthorMla(authors[0], true) + ", and " + FormatAuthorMla(authors[1], false)
    else if n == 3 then
      FormatAuthorMla(authors[0], true) + ", " + FormatAuthorMla(authors[1], false)
      + ", and " + FormatAuthorMla(authors[2], false)
    else FormatAuthorMla(authors[0], true) + ", et al."
  }

  /** `generateMLACitation`. */
  function MlaCitation(data: CitationData): string
  {
    MlaLayout(MlaAuthors(data.authors), data.year, data.title, data.institution)
  }

  /** The MLA template around an author string. */
  function MlaLayout(authorStr: string, year: string, title: string, institution: Option<string>): string
  {
    var institutionPart := if Present(institution) then institution.value + ", " else "";
    var yearPart := if year != "" then year else "n.d.";
    authorStr + ". \"" + title + ".\" " + institutionPart + yearPart + "."
  }

  datatype Citations = Citations(apa: string, mla: string)

  /** `generateCitations`: both styles of the same data. */
  function GenerateCitations(data: CitationData): Citations
  {
    Citations(ApaCitation(data), MlaCitation(data))
  }

  // ------------------------------------------------------------ author names

  /** A name that is one word after trimming is returned as that word, and a
      blank name as the empty string. */
  lemma {:induction false} ApaSingleWord(name: string)
    requires !HasSpace(Trim(name))
    ensures FormatAuthorApa(name) == Trim(name)
    ensures FormatAuthorMla(name, true) == Trim(name)
    ensures FormatAuthorMla(name, false) == Trim(name)
  {
    SplitRunsNoSpace(Trim(name));
  }

  /** A name of one or more blank-free words joined by single blanks is split
      back into those words. */
  lemma {:induction false} WordsOfName(words: seq<string>)
    requires |words| >= 1
    requires forall i :: 0 <= i < |words| ==> words[i] != [] && !HasSpace(words[i])
    ensures Words(Join(words, " ")) == words
  {
    var s := Join(words, " ");
    JoinHead(words, " ");
    JoinLast(words, " ");
    TrimOfTrimmed(s);
    SplitRunsJoin(words);
  }

  lemma {:induction false} JoinLast(parts: seq<string>, sep: string)
    requires |parts| >= 1 && parts[|parts| - 1] != []
    ensures Join(parts, sep) != []
    ensures Join(parts, sep)[|Join(parts, sep)| - 1] == parts[|parts| - 1][|parts[|parts| - 1]| - 1]
  {
    if |parts| > 1 {
      JoinLast(parts[1..], sep);
    }
  }

  /** For a name of k >= 2 words, APA gives the last word, ", ", and one
      upper-cased initial with a period for each earlier word, in order:
      only the last word counts as the surname. */
  lemma {:induction false} ApaManyWords(words: seq<string>)
    requires |words| >= 2
    requires forall i :: 0 <= i < |words| ==> words[i] != [] && !HasSpace(words[i])
    ensures FormatAuthorApa(Join(words, " "))
            == words[|words| - 1] + ", " + Initials(words[..|words| - 1])
  {
    WordsOfName(words);
    InitialsJoin(words[..|words| - 1]);
  }

  /** The initials of a list of words: "J. D." for ["Juan", "Dela"]. */
  function Initials(words: seq<string>): string
    requires forall i :: 0 <= i < |words| ==> words[i] != []
  {
    if words == [] then ""
    else if |words| == 1 then [Upper(words[0][0]), '.']
    else [Upper(words[0][0]), '.', ' '] + Initials(words[1..])
  }

  lemma {:induction false} InitialsJoin(words: seq<string>)
    requires forall i :: 0 <= i < |words| ==> words[i] != []
    ensures Join(Map(Initial, words), " ") == Initials(words)
  {
    if |words| > 1 {
      InitialsJoin(words[1..]);
      assert Map(Initial, words)[1..] == Map(Initial, words[1..]);
    }
  }

  /** MLA inverts a first author of k >= 2 words to "<last>, <other words>",
      the other words in order and separated by single blanks, so splitting
      the tail again gives those words. */
  lemma {:induction false} MlaFirstManyWords(words: seq<string>)
    requires |words| >= 2
    requires forall i :: 0 <= i < |words| ==> words[i] != [] && !HasSpace(words[i])
    ensures FormatAuthorMla(Join(words, " "), true)
            == words[|words| - 1] + ", " + Join(words[..|words| - 1], " ")
    ensures Words(Join(words[..|words| - 1], " ")) == words[..|words| - 1]
  {
    WordsOfName(words);
    WordsOfName(words[..|words| - 1]);
  }

  /** A later MLA author of two or more words is the name exactly as given,
      surrounding whitespace included. */
  lemma {:induction false} MlaLaterAuthorVerbatim(name: string)
    requires |Words(name)| >= 2
    ensures FormatAuthorMla(name, false) == name
  {
  }

  /** "Juan Dela Cruz" is "Cruz, J. D." in APA: the surname is the last word
      only. */
  lemma {:induction false} JuanDelaCruzApa(words: seq<string>)
    requires words == ["Juan", "Dela", "Cruz"]
    ensures FormatAuthorApa(Join(words, " ")) == "Cruz, J. D."
  {
    PlainWords(words);
    ApaManyWords(words);
    assert words[..2] == ["Juan", "Dela"];
  }

  /** "Juan Dela Cruz" is "Cruz, Juan Dela" as a first MLA author. */
  lemma {:induction false} JuanDelaCruzMla(words: seq<string>)
    requires words == ["Juan", "Dela", "Cruz"]
    ensures FormatAuthorMla(Join(words, " "), true) == "Cruz" + ", " + ("Juan" + " " + "Dela")
  {
    PlainWords(words);
    MlaFirstManyWords(words);
    assert words[..2] == ["Juan", "Dela"];
    JoinTwo("Juan", "Dela", " ");
  }

  lemma {:induction false} JoinTwo(a: string, b: string, sep: string)
    ensures Join([a, b], sep) == a + sep + b
  {
    assert [a, b][1..] == [b];
  }

  /** Two authors, "Juan Dela Cruz" and "Maria Santos", of a research paper:
      the APA citation joins the two names with " & " and no comma, takes
      "Cruz" alone as the first surname, and adds a period after the
      institution even when it already ends in one ("Inst." gives "Inst.."). */
  lemma {:induction false} TwoAuthorApaExample(a: seq<string>, b: seq<string>, title: string, year: string,
                                               inst: string, data: CitationData)
    requires a == ["Juan", "Dela", "Cruz"] && b == ["Maria", "Santos"] && year != "" && inst != ""
    requires data == CitationData([Join(a, " "), Join(b, " ")], title, year, Some(inst), Some(PracticalResearch))
    ensures ApaCitation(data)
      == "Cruz, J. D." + " & " + "Santos, M." + " " + ("(" + year + ")") + ". " + title
         + " [" + "Research paper" + "]." + (" " + inst + ".")
  {
    TwoAuthorApaNames(a, b);
    assert TypeLabel(data.researchType) == "Research paper";
  }

  lemma {:induction false} TwoAuthorApaNames(a: seq<string>, b: seq<string>)
    requires a == ["Juan", "Dela", "Cruz"] && b == ["Maria", "Santos"]
    ensures ApaAuthors([Join(a, " "), Join(b, " ")]) == "Cruz, J. D." + " & " + "Santos, M."
  {
    JuanDelaCruzApa(a);
    MariaSantosApa(b);
    var names := ApaNames([Join(a, " "), Join(b, " ")]);
    assert names[0] == "Cruz, J. D." && names[1] == "Santos, M.";
  }

  lemma {:induction false} MariaSantosApa(b: seq<string>)
    requires b == ["Maria", "Santos"]
    ensures FormatAuthorApa(Join(b, " ")) == "Santos, M."
  {
    PlainWords(b);
    ApaManyWords(b);
    assert b[..1] == ["Maria"];
    assert Initials(["Maria"]) == "M.";
  }

  /** The words of the example names are non-empty and blank-free. */
  lemma {:induction false} PlainWords(words: seq<string>)
    requires words == ["Juan", "Dela", "Cruz"] || words == ["Maria", "Santos"] || words == ["Ana", "Reyes"]
    ensures forall i :: 0 <= i < |words| ==> words[i] != [] && !HasSpace(words[i])
  {
    if |words| == 3 {
      LetterWord(words[0]);
      LetterWord(words[1]);
      LetterWord(words[2]);
    } else {
      LetterWord(words[0]);
      LetterWord(words[1]);
    }
  }

  lemma {:induction false} LetterWord(w: string)
    requires w != [] && forall k | 0 <= k < |w| :: 'A' <= w[k] <= 'z'
    ensures !HasSpace(w)
  {
  }

  /** Four authors in MLA, the first "Ana Reyes": only the first, inverted,
      then ", et al.". */
  lemma {:induction false} FourAuthorMlaExample(a: seq<string>, data: CitationData)
    requires a == ["Ana", "Reyes"] && |data.authors| == 4 && data.authors[0] == Join(a, " ")
    requires data.year != "" && Present(data.institution)
    ensures MlaCitation(data)
      == "Reyes, Ana" + ", et al." + ". \"" + data.title + ".\" " + (data.institution.value + ", ") + data.year + "."
  {
    PlainWords(a);
    MlaFirstManyWords(a);
    assert a[..1] == ["Ana"];
    assert Join(["Ana"], " ") == "Ana";
    assert FormatAuthorMla(data.authors[0], true) == "Reyes, Ana";
  }

  /** The name the two lemmas above are about. */
  lemma {:induction false} JuanDelaCruzName(words: seq<string>)
    requires words == ["Juan", "Dela", "Cruz"]
    ensures Join(words, " ") == "Juan Dela Cruz"
  {
    assert Join(words[2..], " ") == "Cruz";
    assert Join(words[1..], " ") == "Dela" + " " + "Cruz";
  }

  // ------------------------------------------------------------ author lists

  /** A reference rendering of a series of three or more names: each name
      followed by ", " and the last two joined by ", & ". */
  function Series(names: seq<string>): string
    requires |names| >= 2
    decreases |names|
  {
    if |names| == 2 then names[0] + ", & " + names[1]
    else names[0] + ", " + Series(names[1..])
  }

  /** For 3 to 20 names the APA list is the series: every name in order,
      ", " between them and ", & " before the last. */
  lemma {:induction false} ApaListIsSeries(names: seq<string>)
    requires 3 <= |names| <= 20
    ensures ApaAuthorList(names) == Series(names)
  {
    SeriesOfJoin(names);
  }

  lemma {:induction false} SeriesOfJoin(names: seq<string>)
    requires |names| >= 2
    ensures Join(names[..|names| - 1], ", ") + ", & " + names[|names| - 1] == Series(names)
    decreases |names|
  {
    var n := |names|;
    if n == 2 {
      assert names[..1] == [names[0]];
    } else {
      var tail := names[1..];
      SeriesOfJoin(tail);
      assert tail[..|tail| - 1] == names[..n - 1][1..];
      assert tail[|tail| - 1] == names[n - 1];
      calc {
        Join(names[..n - 1], ", ") + ", & " + names[n - 1];
        names[0] + ", " + Join(tail[..|tail| - 1], ", ") + ", & " + tail[|tail| - 1];
        names[0] + ", " + (Join(tail[..|tail| - 1], ", ") + ", & " + tail[|tail| - 1]);
      }
    }
  }

  /** The series of `[a, b, c]` is "a, b, & c". */
  lemma {:induction false} SeriesOfThree(a: string, b: string, c: string)
    ensures Series([a, b, c]) == a + ", " + b + ", & " + c
  {
    assert [a, b, c][1..] == [b, c];
  }


  /** Every name of a list of 1 to 20 appears in the APA author list. */
  lemma {:induction false} ApaListHasEveryName(names: seq<string>, i: nat)
    requires 1 <= |names| <= 20 && i < |names|
    ensures Contains(ApaAuthorList(names), names[i])
  {
    var n := |names|;
    if n >= 3 {
      ApaSeriesHasEveryName(names, i);
    } else {
      ApaShortListHasEveryName(names, i);
    }
  }

  lemma {:induction false} ApaShortListHasEveryName(names: seq<string>, i: nat)
    requires 1 <= |names| <= 2 && i < |names|
    ensures Contains(ApaAuthorList(names), names[i])
  {
    var c := ApaAuthorList(names);
    if |names| == 1 {
      assert c == names[0] + "";
      ContainsPrefix(names[0], "");
    } else if i == 0 {
      assert c == names[0] + (" & " + names[1]);
      ContainsPrefix(names[0], " & " + names[1]);
    } else {
      assert c == (names[0] + " & ") + names[1];
      ContainsSuffix(names[0] + " & ", names[1]);
    }
  }

  lemma {:induction false} ApaSeriesHasEveryName(names: seq<string>, i: nat)
    requires 3 <= |names| <= 20 && i < |names|
    ensures Contains(ApaAuthorList(names), names[i])
  {
    var n := |names|;
    var head := Join(names[..n - 1], ", ");
    ApaSeriesShape(names);
    if i < n - 1 {
      ListHeadContains(names[..n - 1], i, ", & " + names[n - 1]);
    } else {
      ContainsSuffix(head + ", & ", names[n - 1]);
    }
  }

  lemma {:induction false} ApaSeriesShape(names: seq<string>)
    requires 3 <= |names| <= 20
    ensures ApaAuthorList(names) == Join(names[..|names| - 1], ", ") + (", & " + names[|names| - 1])
  {
  }

  lemma {:induction false} ListHeadContains(head: seq<string>, i: nat, rest: string)
    requires i < |head|
    ensures Contains(Join(head, ", ") + rest, head[i])
  {
    JoinContainsPart(head, ", ", i);
    ContainsInPrefix(Join(head, ", "), rest, head[i]);
  }

  lemma {:induction false} ContainsPrefix(p: string, s: string)
    ensures Contains(p + s, p)
  {
    assert p <= (p + s)[0..];
  }

  /** Every author of a list of 1 to 20 appears, formatted, in the APA author
      string. */
  lemma {:induction false} ApaListsEveryAuthor(authors: seq<string>, i: nat)
    requires 1 <= |authors| <= 20 && i < |authors|
    ensures Contains(ApaAuthors(authors), FormatAuthorApa(authors[i]))
  {
    ApaListHasEveryName(ApaNames(authors), i);
  }

  /** With more than 20 names, each of the first 19 and the last appears in the
      APA author list. */
  lemma {:induction false} ApaLongListHasNames(names: seq<string>, i: nat)
    requires |names| > 20 && (i < 19 || i == |names| - 1)
    ensures Contains(ApaAuthorList(names), names[i])
  {
    var n := |names|;
    var head := Join(names[..19], ", ");
    assert ApaAuthorList(names) == head + (", ... " + names[n - 1]);
    if i < 19 {
      ListHeadContains(names[..19], i, ", ... " + names[n - 1]);
    } else {
      ContainsSuffix(head + ", ... ", names[n - 1]);
    }
  }

  /** With more than 20 authors, each of the first 19 and the last appears,
      formatted, in the APA author string. */
  lemma {:induction false} ApaLongListNames(authors: seq<string>, i: nat)
    requires |authors| > 20 && (i < 19 || i == |authors| - 1)
    ensures Contains(ApaAuthors(authors), FormatAuthorApa(authors[i]))
  {
    ApaLongListHasNames(ApaNames(authors), i);
  }

  /** With more than 20 authors the 20th to the next-to-last are left out: the
      APA author string depends only on the first 19 and the last. */
  lemma {:induction false} ApaLongListOmitsMiddle(a: seq<string>, b: seq<string>)
    requires |a| > 20 && |b| > 20
    requires a[..19] == b[..19] && a[|a| - 1] == b[|b| - 1]
    ensures ApaAuthors(a) == ApaAuthors(b)
  {
    var na, nb := ApaNames(a), ApaNames(b);
    forall k | 0 <= k < 19
      ensures na[k] == nb[k]
    {
      assert a[k] == a[..19][k] == b[..19][k] == b[k];
    }
    assert na[..19] == nb[..19];
    ApaLongListByEnds(na, nb);
  }

  /** Above twenty names, the APA list is fixed by the first nineteen and the last. */
  lemma {:induction false} ApaLongListByEnds(x: seq<string>, y: seq<string>)
    requires |x| > 20 && |y| > 20 && x[..19] == y[..19] && x[|x| - 1] == y[|y| - 1]
    ensures ApaAuthorList(x) == ApaAuthorList(y)
  {
  }

  /** With one to three authors, the MLA author string names every author:
      the first inverted, the others as written. */
  lemma {:induction false} MlaListsEveryAuthor(authors: seq<string>)
    requires 1 <= |authors| <= 3
    ensures Contains(MlaAuthors(authors), FormatAuthorMla(authors[0], true))
    ensures |authors| >= 2 ==> Contains(MlaAuthors(authors), FormatAuthorMla(authors[1], false))
    ensures |authors| == 3 ==> Contains(MlaAuthors(authors), FormatAuthorMla(authors[2], false))
  {
    MlaAuthorsShape(authors);
    var f0 := FormatAuthorMla(authors[0], true);
    if |authors| == 1 {
      ContainsPrefix(f0, "");
      assert f0 + "" == f0;
    } else if |authors| == 2 {
      PartsContained(f0, ", and ", FormatAuthorMla(authors[1], false), "", "");
    } else {
      PartsContained(f0, ", ", FormatAuthorMla(authors[1], false), ", and ", FormatAuthorMla(authors[2], false));
    }
  }

  /** The three short shapes of the MLA author string. */
  lemma MlaAuthorsShape(authors: seq<string>)
    requires 1 <= |authors| <= 3
    ensures |authors| == 1 ==> MlaAuthors(authors) == FormatAuthorMla(authors[0], true)
    ensures |authors| == 2 ==> MlaAuthors(authors) == FormatAuthorMla(authors[0], true) + ", and " + FormatAuthorMla(authors[1], false)
    ensures |authors| == 3 ==>
      MlaAuthors(authors) == FormatAuthorMla(authors[0], true) + ", " + FormatAuthorMla(authors[1], false) + ", and " + FormatAuthorMla(authors[2], false)
  {
  }

  /** Each of three parts occurs in their concatenation with separators. */
  lemma {:induction false} PartsContained(x: string, s1: string, y: string, s2: string, z: string)
    ensures var c := x + s1 + y + s2 + z;
      Contains(c, x) && Contains(c, y) && Contains(c, z) && (s2 + z == "" ==> c == x + s1 + y)
  {
    var c := x + s1 + y + s2 + z;
    assert c == x + (s1 + y + s2 + z);
    ContainsPrefix(x, s1 + y + s2 + z);
    assert c == (x + s1 + y) + (s2 + z);
    ContainsSuffix(x + s1, y);
    ContainsInPrefix(x + s1 + y, s2 + z, y);
    assert c == (x + s1 + y + s2) + z;
    ContainsSuffix(x + s1 + y + s2, z);
  }

  /** With more than three authors MLA names only the first, followed by
      ", et al.". */
  lemma {:induction false} MlaLongListFirstOnly(a: seq<string>, b: seq<string>)
    requires |a| > 3 && |b| > 3 && a[0] == b[0]
    ensures MlaAuthors(a) == MlaAuthors(b)
    ensures MlaAuthors(a) == FormatAuthorMla(a[0], true) + ", et al."
  {
  }

  lemma {:induction false} JoinContainsPart(parts: seq<string>, sep: string, i: nat)
    requires i < |parts|
    ensures Contains(Join(parts, sep), parts[i])
  {
    if |parts| == 1 {
      assert parts[0] <= Join(parts, sep)[0..];
    } else if i == 0 {
      assert parts[0] <= Join(parts, sep)[0..];
    } else {
      JoinContainsPart(parts[1..], sep, i - 1);
      ContainsSuffix(parts[0] + sep, Join(parts[1..], sep));
      ContainsTransitive(parts[0] + sep + Join(parts[1..], sep), Join(parts[1..], sep), parts[i]);
    }
  }

  lemma {:induction false} ContainsSuffix(p: string, s: string)
    ensures Contains(p + s, s)
  {
    assert s <= (p + s)[|p|..];
  }

  lemma {:induction false} ContainsInPrefix(p: string, s: string, x: string)
    requires Contains(p, x)
    ensures Contains(p + s, x)
  {
    var i :| 0 <= i <= |p| && x <= p[i..];
    assert x <= (p + s)[i..];
  }

  lemma {:induction false} ContainsTransitive(a: string, b: string, c: string)
    requires Contains(a, b) && Contains(b, c)
    ensures Contains(a, c)
  {
    var i :| 0 <= i <= |a| && b <= a[i..];
    var j :| 0 <= j <= |b| && c <= b[j..];
    assert c <= a[i + j..];
  }

  // ------------------------------------------------------------ citations

  /** The APA template starts with the author string and a blank and carries
      the year in parentheses, "(n.d.)" for an empty year. */
  lemma {:induction false} ApaLayoutYear(authorStr: string, year: string, title: string, kind: string,
                                         institution: Option<string>)
    ensures var c := ApaLayout(authorStr, year, title, kind, institution);
      && authorStr + " " <= c
      && Contains(c, if year != "" then "(" + year + ")" else "(n.d.)")
  {
    var y := if year != "" then "(" + year + ")" else "(n.d.)";
    var inst := if Present(institution) then " " + institution.value + "." else "";
    var pre := authorStr + " ";
    var rest := ". " + title + " [" + kind + "]." + inst;
    ApaLayoutSplit(authorStr, year, title, kind, institution);
    ContainsSuffix(pre, y);
    ContainsInPrefix(pre + y, rest, y);
    ContainsPrefix(pre, y + rest);
    assert pre + (y + rest) == pre + y + rest;
  }

  /** The APA template ends with " <institution>." exactly when an institution
      is given, and otherwise with the bracketed type and a period. */
  lemma {:induction false} ApaLayoutSplit(authorStr: string, year: string, title: string, kind: string,
                                          institution: Option<string>)
    ensures ApaLayout(authorStr, year, title, kind, institution)
      == (authorStr + " ") + (if year != "" then "(" + year + ")" else "(n.d.)")
         + (". " + title + " [" + kind + "]." + (if Present(institution) then " " + institution.value + "." else ""))
  {
  }

  lemma {:induction false} ApaLayoutEnd(authorStr: string, year: string, title: string, kind: string,
                                        institution: Option<string>)
    ensures var c := ApaLayout(authorStr, year, title, kind, institution);
      var t := "[" + kind + "].";
      && (Present(institution) ==> c == ApaLayout(authorStr, year, title, kind, None) + " " + institution.value + ".")
      && |t| <= |c| && (!Present(institution) ==> c[|c| - |t|..] == t)
  {
    var y := if year != "" then "(" + year + ")" else "(n.d.)";
    var t := "[" + kind + "].";
    var mid := authorStr + " " + y + ". " + title + " ";
    assert ApaLayout(authorStr, year, title, kind, None) == mid + t;
    if !Present(institution) {
      assert ApaLayout(authorStr, year, title, kind, institution) == mid + t;
    }
  }

  /** The parts of an APA citation: authors, year or "(n.d.)", the bracketed
      type label and the optional institution. */
  lemma {:induction false} ApaCitationParts(data: CitationData)
    ensures var c := ApaCitation(data);
      && ApaAuthors(data.authors) + " " <= c
      && Contains(c, if data.year != "" then "(" + data.year + ")" else "(n.d.)")
      && (Present(data.institution) ==>
            c == ApaLayout(ApaAuthors(data.authors), data.year, data.title, TypeLabel(data.researchType), None)
                 + " " + data.institution.value + ".")
      && var t := "[" + TypeLabel(data.researchType) + "].";
         |t| <= |c| && (!Present(data.institution) ==> c[|c| - |t|..] == t)
  {
    ApaLayoutYear(ApaAuthors(data.authors), data.year, data.title, TypeLabel(data.researchType), data.institution);
    ApaLayoutEnd(ApaAuthors(data.authors), data.year, data.title, TypeLabel(data.researchType), data.institution);
  }

  /** The MLA template: the author string and a period, the quoted title, the
      institution and a comma when given, then the year or "n.d.", and a final
      period. */
  lemma {:induction false} MlaLayoutParts(authorStr: string, year: string, title: string, institution: Option<string>)
    ensures var c := MlaLayout(authorStr, year, title, institution);
      && authorStr + ". \"" + title + ".\" " <= c
      && c[|c| - 1] == '.'
      && (year == "" ==> c[|c| - 5..] == "n.d..")
      && (year != "" ==> c[|c| - |year| - 1..|c| - 1] == year)
      && (Present(institution) ==> Contains(c, institution.value + ", "))
  {
    var pre := authorStr + ". \"" + title + ".\" ";
    var inst := if Present(institution) then institution.value + ", " else "";
    var y := if year != "" then year else "n.d.";
    var c := MlaLayout(authorStr, year, title, institution);
    assert c == pre + (inst + y + ".");
    assert c == pre + inst + (y + ".");
    assert inst <= c[|pre|..];
  }

  /** The parts of an MLA citation. */
  lemma {:induction false} MlaCitationParts(data: CitationData)
    ensures var c := MlaCitation(data);
      && MlaAuthors(data.authors) + ". \"" + data.title + ".\" " <= c
      && (data.year == "" ==> c[|c| - 5..] == "n.d..")
      && (data.year != "" ==> c[|c| - |data.year| - 1..|c| - 1] == data.year)
      && (Present(data.institution) ==> Contains(c, data.institution.value + ", "))
  {
    MlaLayoutParts(MlaAuthors(data.authors), data.year, data.title, data.institution);
  }

  /** No authors: both styles say "Unknown Author". */
  lemma {:induction false} NoAuthors(data: CitationData)
    requires data.authors == []
    ensures "Unknown Author " <= ApaCitation(data)
    ensures "Unknown Author. \"" <= MlaCitation(data)
  {
    NoAuthorsApa(data, "Unknown Author");
    NoAuthorsMla(data, "Unknown Author");
  }

  lemma {:induction false} NoAuthorsApa(data: CitationData, u: string)
    requires data.authors == [] && u == "Unknown Author"
    ensures u + " " <= ApaCitation(data)
  {
    assert ApaAuthors(data.authors) == u;
    ApaLayoutYear(u, data.year, data.title, TypeLabel(data.researchType), data.institution);
  }

  lemma {:induction false} NoAuthorsMla(data: CitationData, u: string)
    requires data.authors == [] && u == "Unknown Author"
    ensures u + ". \"" <= MlaCitation(data)
  {
    assert MlaAuthors(data.authors) == u;
    MlaLayoutParts(u, data.year, data.title, data.institution);
    PrefixOfPrefix(u + ". \"", data.title + ".\" ", MlaCitation(data));
  }

  lemma {:induction false} PrefixOfPrefix(a: string, b: string, c: string)
    requires a + b <= c
    ensures a <= c
  {
    assert c[..|a|] == (a + b)[..|a|] == a;
  }
}
