/** What a research card shows (src/components/research/ResearchCard.tsx):
    the abstract cut to a maximum length, and at most four keyword badges
    followed by a "+N" badge for the rest. */
module ResearchCard {
  import opened Wrappers
  import opened Text
  import opened Types

  const DefaultMaxLength := 200
  const Ellipsis := "..."
  const MaxBadges := 4

  /** `truncateAbstract`: a text within the limit is shown whole; a longer
      one is cut to the limit, trimmed, and marked with an ellipsis. */
  function TruncateAbstract(text: string, maxLength: nat): (r: string)
    ensures |text| <= maxLength ==> r == text
    ensures |text| > maxLength ==> |r| >= 3 && r[|r| - 3..] == Ellipsis
    ensures |r| <= maxLength + 3
  {
    if |text| <= maxLength then text
    else Trim(Take(text, maxLength)) + Ellipsis
  }

  /** The abstract line of a card, with the default limit. */
  function CardAbstract(r: Research): (s: string)
    ensures |s| <= DefaultMaxLength + 3
    ensures |r.abstractText| <= DefaultMaxLength ==> s == r.abstractText
  {
    TruncateAbstract(r.abstractText, DefaultMaxLength)
  }

  /** A long text is shown as its first `maxLength` characters with the
      whitespace at both ends removed, then the ellipsis: the kept part is
      the slice `text[a..b]` of that prefix with only whitespace before `a`
      and from `b` to `maxLength`, it has no whitespace at either end, and it
      is empty only when the prefix is all whitespace. */
  lemma TruncatedPart(text: string, maxLength: nat)
    requires |text| > maxLength
    ensures exists a, b :: 0 <= a <= b <= maxLength
              && TruncateAbstract(text, maxLength) == text[a..b] + Ellipsis
              && AllSpace(text[..a]) && AllSpace(text[b..maxLength]) && IsTrimmed(text[a..b])
    ensures var kept := TruncateAbstract(text, maxLength)[..|TruncateAbstract(text, maxLength)| - 3];
            Contains(text[..maxLength], kept) && IsTrimmed(kept)
            && (kept == "" <==> AllSpace(text[..maxLength]))
  {
    var head := Take(text, maxLength);
    assert head == text[..maxLength];
    var kept := Trim(head);
    assert TruncateAbstract(text, maxLength)[..|TruncateAbstract(text, maxLength)| - 3] == kept;
    var a := |head| - |TrimStart(head)|;
    var b := a + |kept|;
    assert kept == text[a..b];
    assert kept <= head[a..];
    TrimIsTrimmed(head);
    TrimEmptyIffAllSpace(head);
    assert text[..a] == head[..a];
    assert text[b..maxLength] == head[b..];
    assert AllSpace(text[..a]);
    assert AllSpace(text[b..maxLength]);
  }

  /** The keyword badges: the first four keywords, in order. */
  function KeywordBadges(keywords: seq<string>): (r: seq<string>)
    ensures |r| <= MaxBadges && r <= keywords
    ensures |keywords| <= MaxBadges ==> r == keywords
    ensures |keywords| > MaxBadges ==> |r| == MaxBadges
  {
    if |keywords| <= MaxBadges then keywords else keywords[..MaxBadges]
  }

  /** The "+N" badge: present exactly when there are more than four
      keywords. */
  function OverflowBadge(keywords: seq<string>): (r: Option<nat>)
    ensures r.Some? <==> |keywords| > MaxBadges
    ensures r.Some? ==> r.value >= 1
  {
    if |keywords| > MaxBadges then Some(|keywords| - MaxBadges) else None
  }

  /** The badges account for every keyword: those shown plus the overflow
      count make up the whole list. */
  lemma BadgesCoverKeywords(keywords: seq<string>)
    ensures |KeywordBadges(keywords)| + (if OverflowBadge(keywords).Some? then OverflowBadge(keywords).value else 0)
            == |keywords|
  {
  }
}
