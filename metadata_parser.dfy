/** `parseExtractedText` of src/lib/ocr-service.ts: first-match heuristics
    that pull a title, an abstract, keywords, authors and a year out of the
    raw text of a document.

    Each regular expression of the source is written out as the match its
    backtracking search finds: the search tries start positions from left to
    right, greedy runs take as much as they can and give characters back one
    at a time, a lazy run takes as little as it can. All patterns carry the
    `i` flag, so literals are compared after lower-casing (ASCII only). */
module MetadataParser {
  import opened Wrappers
  import opened Text
  import opened Seqs
  import opened Types

  function Min(a: nat, b: nat): nat
  {
    if a <= b then a else b
  }

  // ------------------------------------------------------------ scanning

  /** The smallest `k` in `[lo, hi)` satisfying `p`. */
  function FirstWhere(lo: nat, hi: nat, p: nat -> bool): (r: Option<nat>)
    ensures r.None? <==> forall k :: lo <= k < hi ==> !p(k)
    ensures r.Some? ==> lo <= r.value < hi && p(r.value) && forall k :: lo <= k < r.value ==> !p(k)
    decreases hi - lo
  {
    if lo >= hi then None else if p(lo) then Some(lo) else FirstWhere(lo + 1, hi, p)
  }

  /** The largest `k` in `[lo, hi)` satisfying `p`: the first place a greedy
      run that gives back characters one at a time succeeds. */
  function LastWhere(lo: nat, hi: nat, p: nat -> bool): (r: Option<nat>)
    ensures r.None? <==> forall k :: lo <= k < hi ==> !p(k)
    ensures r.Some? ==> lo <= r.value < hi && p(r.value) && forall k :: r.value < k < hi ==> !p(k)
    decreases hi
  {
    if hi <= lo then None else if p(hi - 1) then Some(hi - 1) else LastWhere(lo, hi - 1, p)
  }

  /** `text.match(re)` for a pattern without the `g` flag: the capture of the
      match found at the leftmost start position where `at` finds one. */
  function Search(text: string, at: nat -> Option<string>): (r: Option<string>)
    ensures r.None? <==> forall p :: 0 <= p <= |text| ==> at(p).None?
    ensures r.Some? ==> exists p :: 0 <= p <= |text| && at(p) == r && forall k :: 0 <= k < p ==> at(k).None?
  {
    var found := (p: nat) => at(p).Some?;
    assert forall k: nat :: found(k) == at(k).Some?;
    match FirstWhere(0, |text| + 1, found)
    case Some(p) => at(p)
    case None => None
  }

  /** The text at `p` reads `word` (written in lower case), ignoring case. */
  predicate MatchesAt(text: string, p: nat, word: string)
  {
    p + |word| <= |text| && LowerStr(text[p..p + |word|]) == word
  }

  predicate IsColonOrSpace(c: char)
  {
    c == ':' || IsSpace(c)
  }

  /** Where a greedy run of characters satisfying `inRun` that starts at `i`
      ends (`[:\s]*`, `\s*`). */
  function SkipRun(text: string, i: nat, inRun: char -> bool): (r: nat)
    requires i <= |text|
    ensures i <= r <= |text|
    ensures forall k :: i <= k < r ==> inRun(text[k])
    ensures r < |text| ==> !inRun(text[r])
    decreases |text| - i
  {
    if i < |text| && inRun(text[i]) then SkipRun(text, i + 1, inRun) else i
  }

  /** The first line break at or after `i`, or the end of the text: where a
      greedy `[^\n]+` stops. */
  function NextNewline(text: string, i: nat): (r: nat)
    requires i <= |text|
    ensures i <= r <= |text|
    ensures forall k :: i <= k < r ==> text[k] != '\n'
    ensures r < |text| ==> text[r] == '\n'
    decreases |text| - i
  {
    if i < |text| && text[i] != '\n' then NextNewline(text, i + 1) else i
  }

  /** Whether a usable capture was found: `match && match[1]`. */
  predicate Usable(c: Option<string>)
  {
    c.Some? && c.value != ""
  }

  // ------------------------------------------------------------ lines and title

  /** The text cut at line breaks, each piece trimmed, empty pieces dropped. */
  function Lines(text: string): (r: seq<string>)
    ensures forall i :: 0 <= i < |r| ==> r[i] != []
  {
    Filter(Map(Trim, Split(text, {'\n'})), l => |l| > 0)
  }

  /** `/^(page|abstract|keywords|introduction|\d+)$/i`. */
  predicate IsHeaderLine(line: string)
  {
    LowerStr(line) in {"page", "abstract", "keywords", "introduction"} || (line != [] && AllDigits(line))
  }

  predicate IsTitleLine(line: string)
  {
    10 < |line| < 300 && !IsHeaderLine(line)
  }

  /** The title: the first of the first five lines that is longer than 10 and
      shorter than 300 characters and is not a header, or "" when none is. */
  function TitleOf(lines: seq<string>): (r: string)
    ensures r == "" <==> forall i :: 0 <= i < Min(|lines|, 5) ==> !IsTitleLine(lines[i])
    ensures r != "" ==> exists i :: 0 <= i < Min(|lines|, 5) && lines[i] == r && IsTitleLine(r)
                                    && forall j :: 0 <= j < i ==> !IsTitleLine(lines[j])
  {
    var first := lines[..Min(|lines|, 5)];
    assert forall i :: 0 <= i < |first| ==> first[i] == lines[i];
    match Find(first, IsTitleLine)
    case Some(line) => line
    case None => ""
  }

  /** The title loop of the source, with its `break`. */
  method FindTitle(lines: seq<string>) returns (title: string)
    ensures title == TitleOf(lines)
  {
    title := "";
    var n := Min(|lines|, 5);
    var i := 0;
    while i < n
      invariant 0 <= i <= n
      invariant forall k :: 0 <= k < i ==> !IsTitleLine(lines[k])
    {
      var line := lines[i];
      if 10 < |line| < 300 && !IsHeaderLine(line) {
        title := line;
        TitleIsFirst(lines, i);
        return;
      }
      i := i + 1;
    }
  }

  /** A title line preceded only by non-title lines, among the first five, is
      the title. */
  lemma {:induction false} TitleIsFirst(lines: seq<string>, i: nat)
    requires i < Min(|lines|, 5) && IsTitleLine(lines[i])
    requires forall k :: 0 <= k < i ==> !IsTitleLine(lines[k])
    ensures TitleOf(lines) == lines[i]
  {
    var r := TitleOf(lines);
    assert r != "";
    var j :| 0 <= j < Min(|lines|, 5) && lines[j] == r && IsTitleLine(r)
             && forall m :: 0 <= m < j ==> !IsTitleLine(lines[m]);
    assert IsTitleLine(lines[i]) && IsTitleLine(lines[j]);
  }

  // ------------------------------------------------------------ abstract

  /** The section lookahead at `j`: a line break, white space, then a heading
      word (keywords, introduction, "1." or background).
      The alternatives start with a non-space, so only the longest `\s*` can
      let them match. */
  predicate SectionFollows(text: string, j: nat)
  {
    j < |text| && text[j] == '\n' &&
    var k := SkipRun(text, j + 1, IsSpace);
    MatchesAt(text, k, "keywords") || MatchesAt(text, k, "introduction")
    || MatchesAt(text, k, "1.") || MatchesAt(text, k, "background")
  }

  /** The first abstract pattern tried at `p`: the word "abstract", a run of
      colons and white space, and a lazy capture up to a section heading. The
      lazy capture runs from the end of the `[:\s]*` run to the first line
      break that starts a section heading; when there is none, the run gives
      back characters and the capture is empty at the last such line break
      inside the run. */
  function AbstractPattern1At(text: string, p: nat): (r: Option<string>)
    ensures r.Some? && r.value != [] ==> !IsSpace(r.value[0])
  {
    if !MatchesAt(text, p, "abstract") then None
    else
      var s := p + 8;
      var q := SkipRun(text, s, IsColonOrSpace);
      match FirstWhere(q, |text|, (j: nat) => SectionFollows(text, j))
      case Some(j) => Some(text[q..j])
      case None =>
        if LastWhere(s, q, (j: nat) => SectionFollows(text, j)).Some? then Some("") else None
  }

  /** The second abstract pattern tried at `p`: "abstract", then up to 2000
      characters after the `[:\s]*` run, the run giving back characters when
      fewer than 100 remain after it. */
  function AbstractPattern2At(text: string, p: nat): (r: Option<string>)
    ensures r.Some? ==> 100 <= |r.value| <= 2000
  {
    if !MatchesAt(text, p, "abstract") then None
    else
      var s := p + 8;
      var q := SkipRun(text, s, IsColonOrSpace);
      if |text| - s >= 100 then
        var start := if |text| - q >= 100 then q else |text| - 100;
        Some(text[start..Min(start + 2000, |text|)])
      else None
  }

  /** `match[1].trim().replace(/\s+/g, ' ')`. */
  function Clean(capture: string): (r: string)
    ensures |r| <= |capture|
    ensures forall i :: 0 <= i < |r| - 1 ==> !(IsSpace(r[i]) && IsSpace(r[i + 1]))
  {
    CollapseSpaces(Trim(capture))
  }

  /** The captures of the two abstract patterns, in the order they are tried. */
  function AbstractCaptures(text: string): seq<Option<string>>
  {
    [Search(text, (p: nat) => AbstractPattern1At(text, p)), Search(text, (p: nat) => AbstractPattern2At(text, p))]
  }

  /** The abstract pattern loop, from the value `acc` held so far: each usable
      capture replaces the abstract, and one longer than 50 characters ends
      the loop. */
  function AbstractLoop(captures: seq<Option<string>>, acc: string): string
  {
    if captures == [] then acc
    else if Usable(captures[0]) then
      var a := Clean(captures[0].value);
      if |a| > 50 then a else AbstractLoop(captures[1..], a)
    else AbstractLoop(captures[1..], acc)
  }

  method PickAbstract(captures: seq<Option<string>>) returns (abstractText: string)
    ensures abstractText == AbstractLoop(captures, "")
  {
    abstractText := "";
    var i := 0;
    while i < |captures|
      invariant 0 <= i <= |captures|
      invariant AbstractLoop(captures[i..], abstractText) == AbstractLoop(captures, "")
    {
      assert captures[i..][1..] == captures[i + 1..];
      var c := captures[i];
      if c.Some? && c.value != "" {
        abstractText := Clean(c.value);
        if |abstractText| > 50 {
          return;
        }
      }
      i := i + 1;
    }
  }

  /** With two patterns: the first usable capture longer than 50 characters
      once cleaned wins; otherwise the last usable capture is kept, however
      short; with none the abstract is empty. */
  lemma {:induction false} AbstractLoopOfTwo(c1: Option<string>, c2: Option<string>)
    ensures AbstractLoop([c1, c2], "") ==
      if Usable(c1) && |Clean(c1.value)| > 50 then Clean(c1.value)
      else if Usable(c2) then Clean(c2.value)
      else if Usable(c1) then Clean(c1.value)
      else ""
  {
    assert [c1, c2][1..] == [c2];
    AbstractLoopLast(c2, "");
    if Usable(c1) {
      AbstractLoopLast(c2, Clean(c1.value));
    }
  }

  /** The last capture replaces the accumulated abstract when usable. */
  lemma {:induction false} AbstractLoopLast(c: Option<string>, acc: string)
    ensures AbstractLoop([c], acc) == if Usable(c) then Clean(c.value) else acc
  {
    assert [c][1..] == [];
  }

  /** The paragraph separator tried at `i`: a line break, greedy white space and a
      line break: it matches up to and including the last line break of the
      white-space run after `i`. The result is where the match ends. */
  function ParagraphBreakAt(text: string, i: nat): (r: Option<nat>)
    ensures r.Some? ==> i < r.value <= |text|
  {
    if i < |text| && text[i] == '\n' then
      var e := SkipRun(text, i + 1, IsSpace);
      match LastWhere(i + 1, e, (k: nat) => k < |text| && text[k] == '\n')
      case Some(k) => Some(k + 1)
      case None => None
    else None
  }

  /** The pieces of `text[start..]` between paragraph breaks, scanning from `i`. */
  function ParagraphsFrom(text: string, start: nat, i: nat): (r: seq<string>)
    requires start <= i <= |text|
    ensures |r| >= 1
    decreases |text| - i
  {
    if i == |text| then [text[start..]]
    else
      match ParagraphBreakAt(text, i)
      case Some(e) => [text[start..i]] + ParagraphsFrom(text, e, e)
      case None => ParagraphsFrom(text, start, i + 1)
  }

  function Paragraphs(text: string): seq<string>
  {
    ParagraphsFrom(text, 0, 0)
  }

  /** The fallback abstract: the first paragraph whose trimmed text is longer
      than 100 characters, white space collapsed, cut to 1000 characters. */
  function FallbackAbstract(text: string): (r: string)
    ensures |r| <= 1000
  {
    var paragraphs := Filter(Paragraphs(text), p => |Trim(p)| > 100);
    if paragraphs == [] then "" else Take(CollapseSpaces(paragraphs[0]), 1000)
  }

  /** The abstract: the pattern result, or the fallback when that is empty and
      there are more than two lines. */
  function AbstractOf(text: string, lines: seq<string>): (r: string)
  {
    var a := AbstractLoop(AbstractCaptures(text), "");
    if a == "" && |lines| > 2 then FallbackAbstract(text) else a
  }

  /** The fallback is used only when the patterns found nothing and there are
      more than two lines; it is at most 1000 characters long. A pattern
      abstract has no two adjacent white-space characters. */
  lemma {:induction false} AbstractSources(text: string, lines: seq<string>)
    ensures var a := AbstractLoop(AbstractCaptures(text), "");
      && (a != "" || |lines| <= 2 ==> AbstractOf(text, lines) == a)
      && (a == "" && |lines| > 2 ==> |AbstractOf(text, lines)| <= 1000)
      && (forall i :: 0 <= i < |a| - 1 ==> !(IsSpace(a[i]) && IsSpace(a[i + 1])))
  {
    var cs := AbstractCaptures(text);
    AbstractLoopOfTwo(cs[0], cs[1]);
    assert cs == [cs[0], cs[1]];
  }

  // ------------------------------------------------------------ keywords and authors

  /** A run of colons and white space, then a capture of the rest of the line,
      from `s`: the capture starts at the end of the greedy
      run or, giving characters back, at the last character of the run that
      is not a line break, and runs to the end of its line. */
  function CaptureLine(text: string, s: nat): (r: Option<string>)
    ensures r.Some? ==> r.value != [] && '\n' !in r.value
  {
    if s > |text| then None
    else
      var q := SkipRun(text, s, IsColonOrSpace);
      match LastWhere(s, q + 1, (c: nat) => c < |text| && text[c] != '\n')
      case Some(c) =>
        var r := text[c..NextNewline(text, c)];
        assert forall k :: 0 <= k < |r| ==> r[k] == text[c + k];
        Some(r)
      case None => None
  }

  /** An optional `s` at `s0` followed by a line capture: taking the `s`
      is tried first. */
  function OptionalS(text: string, s0: nat): (r: Option<string>)
    ensures r.Some? ==> r.value != [] && '\n' !in r.value
  {
    if s0 < |text| && Lower(text[s0]) == 's' then
      match CaptureLine(text, s0 + 1)
      case Some(c) => Some(c)
      case None => CaptureLine(text, s0)
    else CaptureLine(text, s0)
  }

  /** `/keywords?[:\s]*([^\n]+)/i` tried at `p`. */
  function KeywordsAt(text: string, p: nat): (r: Option<string>)
    ensures r.Some? ==> r.value != [] && '\n' !in r.value
  {
    if MatchesAt(text, p, "keyword") then OptionalS(text, p + 7) else None
  }

  /** The first author pattern tried at `p`: "by", "author" or "authors" and a
      line capture, ignoring case; "by" anywhere, even
      inside a word, is tried before "author". */
  function AuthorsAt(text: string, p: nat): (r: Option<string>)
    ensures r.Some? ==> r.value != [] && '\n' !in r.value
  {
    var viaBy := if MatchesAt(text, p, "by") then CaptureLine(text, p + 2) else None;
    if viaBy.Some? then viaBy
    else if MatchesAt(text, p, "author") then OptionalS(text, p + 6)
    else None
  }

  /** The second author pattern tried at `p`: "submitted by" or "prepared by"
      and a line capture, ignoring case. */
  function SubmittedByAt(text: string, p: nat): (r: Option<string>)
    ensures r.Some? ==> r.value != [] && '\n' !in r.value
  {
    var submitted := if MatchesAt(text, p, "submitted by") then CaptureLine(text, p + 12) else None;
    if submitted.Some? then submitted
    else if MatchesAt(text, p, "prepared by") then CaptureLine(text, p + 11)
    else None
  }

  predicate IsKeyword(k: string)
  {
    2 < |k| < 50
  }

  /** The keyword capture cut at commas and semicolons, each piece trimmed,
      keeping pieces of 3 to 49 characters. */
  function KeywordsOf(capture: string): seq<string>
  {
    Filter(Map(Trim, Split(capture, {',', ';'})), IsKeyword)
  }

  predicate IsAuthorName(a: string)
  {
    3 < |a| < 100 && !HasDigit(a)
  }

  /** The author capture cut at commas and ampersands, each piece trimmed,
      keeping digit-free pieces of 4 to 99 characters. */
  function AuthorsOf(capture: string): seq<string>
  {
    Filter(Map(Trim, Split(capture, {',', '&'})), IsAuthorName)
  }

  /** No character of `s` is in `bad`. */
  predicate Avoids(s: string, bad: set<char>)
  {
    forall j :: 0 <= j < |s| ==> s[j] !in bad
  }

  /** The pieces of a split, each trimmed, are trimmed and hold neither a
      separator nor a character absent from the input. */
  lemma {:induction false} TrimmedPieces(s: string, seps: set<char>, c: char)
    requires c !in s
    ensures forall x :: x in Map(Trim, Split(s, seps)) ==> IsTrimmed(x) && Avoids(x, seps + {c})
  {
    var pieces := Split(s, seps);
    var trimmed := Map(Trim, pieces);
    forall i | 0 <= i < |trimmed|
      ensures IsTrimmed(trimmed[i]) && Avoids(trimmed[i], seps + {c})
    {
      SplitPieceIn(s, seps, i);
      assert Avoids(pieces[i], seps + {c});
      TrimIsTrimmed(pieces[i]);
      TrimKeepsAll(pieces[i], seps + {c});
    }
  }

  /** The keywords of a capture line are trimmed, 3 to 49 characters long and
      free of ',', ';' and line breaks; every trimmed piece of that length is
      among them. */
  lemma {:induction false} KeywordsOfShape(capture: string)
    requires '\n' !in capture
    ensures var ks := KeywordsOf(capture);
      && (forall k :: k in ks ==> IsKeyword(k) && IsTrimmed(k) && Avoids(k, {',', ';', '\n'}))
      && (forall piece :: piece in Split(capture, {',', ';'}) && IsKeyword(Trim(piece)) ==> Trim(piece) in ks)
  {
    TrimmedPieces(capture, {',', ';'}, '\n');
    var pieces := Split(capture, {',', ';'});
    forall piece | piece in pieces && IsKeyword(Trim(piece))
      ensures Trim(piece) in KeywordsOf(capture)
    {
      var i :| 0 <= i < |pieces| && pieces[i] == piece;
      assert Map(Trim, pieces)[i] == Trim(piece);
    }
  }

  /** The authors of a capture line are trimmed, 4 to 99 characters long, hold
      no digit and are free of ',', '&' and line breaks; every trimmed piece
      meeting those bounds is among them. */
  lemma {:induction false} AuthorsOfShape(capture: string)
    requires '\n' !in capture
    ensures var as_ := AuthorsOf(capture);
      && (forall a :: a in as_ ==> IsAuthorName(a) && IsTrimmed(a) && Avoids(a, {',', '&', '\n'}))
      && (forall piece :: piece in Split(capture, {',', '&'}) && IsAuthorName(Trim(piece)) ==> Trim(piece) in as_)
  {
    TrimmedPieces(capture, {',', '&'}, '\n');
    var pieces := Split(capture, {',', '&'});
    forall piece | piece in pieces && IsAuthorName(Trim(piece))
      ensures Trim(piece) in AuthorsOf(capture)
    {
      var i :| 0 <= i < |pieces| && pieces[i] == piece;
      assert Map(Trim, pieces)[i] == Trim(piece);
    }
  }

  lemma {:induction false} SplitPieceIn(s: string, seps: set<char>, i: nat)
    requires i < |Split(s, seps)|
    ensures forall ch :: ch in Split(s, seps)[i] ==> ch in s
  {
    if s != [] {
      var rest := Split(s[1..], seps);
      if s[0] in seps {
        if i > 0 {
          SplitPieceIn(s[1..], seps, i - 1);
        }
      } else {
        SplitPieceIn(s[1..], seps, i);
      }
    }
  }

  lemma TrimKeepsAll(s: string, seps: set<char>)
    requires Avoids(s, seps)
    ensures Avoids(Trim(s), seps)
  {
    var a := |s| - |TrimStart(s)|;
    forall j | 0 <= j < |Trim(s)|
      ensures Trim(s)[j] !in seps
    {
      assert Trim(s)[j] == s[a + j];
    }
  }

  /** The authors loop: the first pattern whose capture gives at least one
      author wins; a usable capture giving none still replaces the list. */
  function AuthorsLoop(captures: seq<Option<string>>, acc: seq<string>): seq<string>
  {
    if captures == [] then acc
    else if Usable(captures[0]) then
      var a := AuthorsOf(captures[0].value);
      if |a| > 0 then a else AuthorsLoop(captures[1..], a)
    else AuthorsLoop(captures[1..], acc)
  }

  function AuthorCaptures(text: string): seq<Option<string>>
  {
    [Search(text, (p: nat) => AuthorsAt(text, p)), Search(text, (p: nat) => SubmittedByAt(text, p))]
  }

  method PickAuthors(captures: seq<Option<string>>) returns (authors: seq<string>)
    ensures authors == AuthorsLoop(captures, [])
  {
    authors := [];
    var i := 0;
    while i < |captures|
      invariant 0 <= i <= |captures|
      invariant AuthorsLoop(captures[i..], authors) == AuthorsLoop(captures, [])
    {
      assert captures[i..][1..] == captures[i + 1..];
      var c := captures[i];
      if c.Some? && c.value != "" {
        authors := AuthorsOf(c.value);
        if |authors| > 0 {
          return;
        }
      }
      i := i + 1;
    }
  }

  /** The authors: those of the first pattern when it gives any, else those of
      the second pattern when it matches, else none. */
  lemma {:induction false} AuthorsLoopOfTwo(c1: Option<string>, c2: Option<string>)
    ensures AuthorsLoop([c1, c2], []) ==
      if Usable(c1) && |AuthorsOf(c1.value)| > 0 then AuthorsOf(c1.value)
      else if Usable(c2) then AuthorsOf(c2.value)
      else []
  {
    assert [c1, c2][1..] == [c2];
    assert [c2][1..] == [];
    var a1: seq<string> := if Usable(c1) then AuthorsOf(c1.value) else [];
    assert AuthorsLoop([c2], a1) == if Usable(c2) then AuthorsOf(c2.value) else a1 by {
      if Usable(c2) {
        var a2 := AuthorsOf(c2.value);
        assert AuthorsLoop([], a2) == a2;
      } else {
        assert AuthorsLoop([], a1) == a1;
      }
    }
  }

  // ------------------------------------------------------------ year

  /** `/\b(20\d{2}|19\d{2})\b/` matches at `p`. */
  predicate YearAt(text: string, p: nat)
  {
    p + 4 <= |text| && (text[p..p + 2] == "20" || text[p..p + 2] == "19")
    && IsDigit(text[p + 2]) && IsDigit(text[p + 3])
    && (p == 0 || !IsWordChar(text[p - 1]))
    && (p + 4 == |text| || !IsWordChar(text[p + 4]))
  }

  /** The year: the first word-bounded four-digit number starting with 19 or
      20. */
  function YearOf(text: string): (r: Option<string>)
    ensures r.None? <==> forall p :: 0 <= p < |text| ==> !YearAt(text, p)
    ensures r.Some? ==> exists p :: 0 <= p < |text| && YearAt(text, p) && r.value == text[p..p + 4]
                                    && forall k :: 0 <= k < p ==> !YearAt(text, k)
    ensures r.Some? ==> |r.value| == 4 && AllDigits(r.value) && (r.value[..2] == "19" || r.value[..2] == "20")
  {
    var found := (p: nat) => YearAt(text, p);
    assert forall k: nat :: found(k) == YearAt(text, k);
    match FirstWhere(0, |text|, found)
    case Some(p) =>
      YearDigits(text, p);
      Some(text[p..p + 4])
    case None => None
  }

  /** A year match is four digits starting "19" or "20". */
  lemma {:induction false} YearDigits(text: string, p: nat)
    requires YearAt(text, p)
    ensures var y := text[p..p + 4];
      |y| == 4 && AllDigits(y) && (y[..2] == "19" || y[..2] == "20")
  {
    var y := text[p..p + 4];
    assert y[..2] == text[p..p + 2];
    assert y[0] == text[p] && y[1] == text[p + 1] && y[2] == text[p + 2] && y[3] == text[p + 3];
    assert text[p] == text[p..p + 2][0] && text[p + 1] == text[p..p + 2][1];
  }

  // ------------------------------------------------------------ the whole parse

  /** What `parseExtractedText` returns for `text`. */
  function ParsedText(text: string): (r: OCRResult)
    ensures r.rawText == text && r.confidence == 0.0
  {
    var lines := Lines(text);
    var title := TitleOf(lines);
    OCRResult(
      if title == "" then "Untitled Document" else title,
      AbstractOf(text, lines),
      KeywordsFound(text),
      AuthorsLoop(AuthorCaptures(text), []),
      YearOf(text),
      text,
      0.0)
  }

  /** `parseExtractedText`, with the source's loops for the title, the
      abstract patterns and the author patterns. */
  method ParseExtractedText(text: string) returns (r: OCRResult)
    ensures r == ParsedText(text)
  {
    var lines := Lines(text);
    var title := FindTitle(lines);
    var abstractText := PickAbstract(AbstractCaptures(text));
    var keywords: seq<string> := [];
    var keywordsMatch := Search(text, (p: nat) => KeywordsAt(text, p));
    if keywordsMatch.Some? && keywordsMatch.value != "" {
      keywords := KeywordsOf(keywordsMatch.value);
    }
    var authors := PickAuthors(AuthorCaptures(text));
    var year := YearOf(text);
    if abstractText == "" && |lines| > 2 {
      abstractText := FallbackAbstract(text);
    }
    r := OCRResult(if title == "" then "Untitled Document" else title, abstractText, keywords,
                   authors, year, text, 0.0);
  }

  /** The keywords: those of the first match of the keywords pattern, or none. */
  function KeywordsFound(text: string): seq<string>
  {
    var m := Search(text, (p: nat) => KeywordsAt(text, p));
    if Usable(m) then KeywordsOf(m.value) else []
  }

  /** Every keyword returned is trimmed, 3 to 49 characters long and free of
      ',', ';' and line breaks. */
  lemma {:induction false} ParsedKeywords(text: string)
    ensures forall k :: k in KeywordsFound(text) ==> IsKeyword(k) && IsTrimmed(k) && Avoids(k, {',', ';', '\n'})
  {
    var m := Search(text, (p: nat) => KeywordsAt(text, p));
    if Usable(m) {
      var p :| 0 <= p <= |text| && KeywordsAt(text, p) == m;
      KeywordsOfShape(m.value);
    }
  }

  /** Every author returned is trimmed, 4 to 99 characters long, has no digit
      and no ',', '&' or line break. */
  lemma {:induction false} ParsedAuthors(text: string)
    ensures forall a :: a in AuthorsLoop(AuthorCaptures(text), []) ==>
              IsAuthorName(a) && IsTrimmed(a) && Avoids(a, {',', '&', '\n'})
  {
    var cs := AuthorCaptures(text);
    AuthorsLoopOfTwo(cs[0], cs[1]);
    assert cs == [cs[0], cs[1]];
    if Usable(cs[0]) {
      var p :| 0 <= p <= |text| && AuthorsAt(text, p) == cs[0];
      AuthorsOfShape(cs[0].value);
    }
    if Usable(cs[1]) {
      var p :| 0 <= p <= |text| && SubmittedByAt(text, p) == cs[1];
      AuthorsOfShape(cs[1].value);
    }
  }
}
