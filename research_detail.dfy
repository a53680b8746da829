/** The question list of the research page (src/pages/ResearchDetail.tsx):
    questions with their answers, updated in place by the page's handlers,
    and the citations the page shows. The clock (`Date.now()`, used for ids
    and dates) is a parameter. */
module ResearchDetail {
  import opened Wrappers
  import opened Text
  import opened Seqs
  import opened Types

  // ---------------------------------------------------------------- list updates

  /** A new question: id "q" followed by the clock, no upvotes, no answers. */
  function NewQuestion(researchId: string, user: User, content: string, now: nat): (q: QAQuestion)
    ensures q.id == "q" + NatToString(now) && q.researchId == researchId
    ensures q.userId == user.id && q.userName == user.fullName && q.content == content
    ensures q.upvotes == 0 && q.answers == [] && q.createdAt == now
  {
    QAQuestion("q" + NatToString(now), researchId, user.id, user.fullName, content, 0, now, [])
  }

  /** A new answer: id "a" followed by the clock, no upvotes. */
  function NewAnswer(questionId: string, user: User, content: string, now: nat): (a: QAAnswer)
    ensures a.id == "a" + NatToString(now) && a.questionId == questionId
    ensures a.userId == user.id && a.userName == user.fullName && a.content == content
    ensures a.upvotes == 0 && a.createdAt == now
  {
    QAAnswer("a" + NatToString(now), questionId, user.id, user.fullName, content, 0, now)
  }

  /** The questions after `handleAddAnswer`: the answer appended to the
      questions with the id, every other question as it was. */
  function AnswerAdded(qs: seq<QAQuestion>, questionId: string, a: QAAnswer): (r: seq<QAQuestion>)
    ensures |r| == |qs|
    ensures forall i :: 0 <= i < |qs| ==>
              r[i] == if qs[i].id == questionId then qs[i].(answers := qs[i].answers + [a]) else qs[i]
  {
    seq(|qs|, i requires 0 <= i < |qs| =>
      if qs[i].id == questionId then qs[i].(answers := qs[i].answers + [a]) else qs[i])
  }

  /** The questions after `handleUpvoteQuestion`. */
  function QuestionUpvoted(qs: seq<QAQuestion>, questionId: string): (r: seq<QAQuestion>)
    ensures |r| == |qs|
    ensures forall i :: 0 <= i < |qs| ==>
              r[i] == if qs[i].id == questionId then qs[i].(upvotes := qs[i].upvotes + 1) else qs[i]
  {
    seq(|qs|, i requires 0 <= i < |qs| =>
      if qs[i].id == questionId then qs[i].(upvotes := qs[i].upvotes + 1) else qs[i])
  }

  /** The answers of one question after an upvote on `answerId`. */
  function AnswersUpvoted(answers: seq<QAAnswer>, answerId: string): (r: seq<QAAnswer>)
    ensures |r| == |answers|
    ensures forall j :: 0 <= j < |answers| ==>
              r[j] == if answers[j].id == answerId then answers[j].(upvotes := answers[j].upvotes + 1) else answers[j]
  {
    seq(|answers|, j requires 0 <= j < |answers| =>
      if answers[j].id == answerId then answers[j].(upvotes := answers[j].upvotes + 1) else answers[j])
  }

  /** The questions after `handleUpvoteAnswer`: only answers of the matched
      question change. */
  function AnswerUpvoted(qs: seq<QAQuestion>, questionId: string, answerId: string): (r: seq<QAQuestion>)
    ensures |r| == |qs|
    ensures forall i :: 0 <= i < |qs| ==>
              r[i] == if qs[i].id == questionId then qs[i].(answers := AnswersUpvoted(qs[i].answers, answerId)) else qs[i]
  {
    seq(|qs|, i requires 0 <= i < |qs| =>
      if qs[i].id == questionId then qs[i].(answers := AnswersUpvoted(qs[i].answers, answerId)) else qs[i])
  }

  /** The questions after `handleDeleteQuestion`. */
  function QuestionDeleted(qs: seq<QAQuestion>, questionId: string): (r: seq<QAQuestion>)
    ensures forall q :: q in r <==> q in qs && q.id != questionId
    ensures IsSubsequence(r, qs)
    ensures |r| == |qs| - |Filter(qs, (q: QAQuestion) => q.id == questionId)|
  {
    FilterIsSubsequence(qs, (q: QAQuestion) => q.id != questionId);
    FilterSplitCount(qs, (q: QAQuestion) => q.id != questionId, (q: QAQuestion) => q.id == questionId);
    Filter(qs, (q: QAQuestion) => q.id != questionId)
  }

  /** The questions after `handleDeleteAnswer`: the answer removed from the
      matched question only. */
  function AnswerDeleted(qs: seq<QAQuestion>, questionId: string, answerId: string): (r: seq<QAQuestion>)
    ensures |r| == |qs|
    ensures forall i :: 0 <= i < |qs| ==>
              r[i] == if qs[i].id == questionId
                      then qs[i].(answers := Filter(qs[i].answers, (a: QAAnswer) => a.id != answerId))
                      else qs[i]
  {
    seq(|qs|, i requires 0 <= i < |qs| =>
      if qs[i].id == questionId
      then qs[i].(answers := Filter(qs[i].answers, (a: QAAnswer) => a.id != answerId))
      else qs[i])
  }

  /** The questions first shown for a research: those of the sample list
      that belong to it, in the list's order. */
  function InitialQuestions(sample: seq<QAQuestion>, researchId: string): (r: seq<QAQuestion>)
    ensures forall q :: q in r <==> q in sample && q.researchId == researchId
    ensures IsSubsequence(r, sample)
    ensures |r| == |sample| - |Filter(sample, (q: QAQuestion) => q.researchId != researchId)|
  {
    FilterIsSubsequence(sample, (q: QAQuestion) => q.researchId == researchId);
    FilterSplitCount(sample, (q: QAQuestion) => q.researchId == researchId, (q: QAQuestion) => q.researchId != researchId);
    Filter(sample, (q: QAQuestion) => q.researchId == researchId)
  }

  // ---------------------------------------------------------------- properties

  /** The number of answers on the page. */
  function AnswerTotal(qs: seq<QAQuestion>): nat
  {
    if qs == [] then 0 else |qs[0].answers| + AnswerTotal(qs[1..])
  }

  /** The number of questions with the id. */
  function CountId(qs: seq<QAQuestion>, questionId: string): nat
  {
    if qs == [] then 0 else (if qs[0].id == questionId then 1 else 0) + CountId(qs[1..], questionId)
  }

  /** Adding an answer adds one answer per question with the id, so exactly
      one when ids are unique and none for an unknown id. */
  lemma {:induction false} AnswerAddedTotal(qs: seq<QAQuestion>, questionId: string, a: QAAnswer)
    ensures AnswerTotal(AnswerAdded(qs, questionId, a)) == AnswerTotal(qs) + CountId(qs, questionId)
  {
    if qs != [] {
      AnswerAddedTotal(qs[1..], questionId, a);
      assert AnswerAdded(qs, questionId, a)[1..] == AnswerAdded(qs[1..], questionId, a);
    }
  }

  /** Deleting an answer never adds answers, and removes none from other
      questions. */
  lemma {:induction false} AnswerDeletedTotal(qs: seq<QAQuestion>, questionId: string, answerId: string)
    ensures AnswerTotal(AnswerDeleted(qs, questionId, answerId)) <= AnswerTotal(qs)
    ensures CountId(qs, questionId) == 0 ==> AnswerDeleted(qs, questionId, answerId) == qs
  {
    if qs != [] {
      AnswerDeletedTotal(qs[1..], questionId, answerId);
      assert AnswerDeleted(qs, questionId, answerId)[1..] == AnswerDeleted(qs[1..], questionId, answerId);
    }
  }

  /** After deleting, the matched question holds no answer with the id. */
  lemma AnswerGone(qs: seq<QAQuestion>, questionId: string, answerId: string, i: int)
    requires 0 <= i < |qs| && qs[i].id == questionId
    ensures forall a :: a in AnswerDeleted(qs, questionId, answerId)[i].answers ==> a.id != answerId
  {
  }

  /** Upvoting an unknown answer, or in an unknown question, changes
      nothing. */
  lemma {:induction false} UpvoteUnknownAnswer(qs: seq<QAQuestion>, questionId: string, answerId: string)
    requires forall i :: 0 <= i < |qs| && qs[i].id == questionId ==>
               forall j :: 0 <= j < |qs[i].answers| ==> qs[i].answers[j].id != answerId
    ensures AnswerUpvoted(qs, questionId, answerId) == qs
  {
    var r := AnswerUpvoted(qs, questionId, answerId);
    forall i | 0 <= i < |qs|
      ensures r[i] == qs[i]
    {
      if qs[i].id == questionId {
        assert AnswersUpvoted(qs[i].answers, answerId) == qs[i].answers;
      }
    }
  }

  // ---------------------------------------------------------------- the board

  class QuestionBoard {
    var questions: seq<QAQuestion>

    constructor ()
      ensures questions == []
    {
      questions := [];
    }

    /** The effect that runs when the research is found: its questions from
        the sample list. */
    method Load(sample: seq<QAQuestion>, researchId: string)
      modifies this
      ensures questions == InitialQuestions(sample, researchId)
    {
      questions := Filter(sample, (q: QAQuestion) => q.researchId == researchId);
    }

    /** `handleAddQuestion`: nothing without a user, otherwise the new
        question goes first. */
    method AddQuestion(user: Option<User>, researchId: string, content: string, now: nat)
      modifies this
      ensures user.None? ==> questions == old(questions)
      ensures user.Some? ==> questions == [NewQuestion(researchId, user.value, content, now)] + old(questions)
    {
      if user.None? {
        return;
      }
      var newQuestion := NewQuestion(researchId, user.value, content, now);
      questions := [newQuestion] + questions;
    }

    /** `handleAddAnswer`: nothing without a user. */
    method AddAnswer(user: Option<User>, questionId: string, content: string, now: nat)
      modifies this
      ensures user.None? ==> questions == old(questions)
      ensures user.Some? ==> questions == AnswerAdded(old(questions), questionId, NewAnswer(questionId, user.value, content, now))
    {
      if user.None? {
        return;
      }
      var newAnswer := NewAnswer(questionId, user.value, content, now);
      questions := AnswerAdded(questions, questionId, newAnswer);
    }

    method UpvoteQuestion(questionId: string)
      modifies this
      ensures questions == QuestionUpvoted(old(questions), questionId)
    {
      questions := QuestionUpvoted(questions, questionId);
    }

    method UpvoteAnswer(questionId: string, answerId: string)
      modifies this
      ensures questions == AnswerUpvoted(old(questions), questionId, answerId)
    {
      questions := AnswerUpvoted(questions, questionId, answerId);
    }

    method DeleteQuestion(questionId: string)
      modifies this
      ensures questions == QuestionDeleted(old(questions), questionId)
    {
      questions := QuestionDeleted(questions, questionId);
    }

    method DeleteAnswer(questionId: string, answerId: string)
      modifies this
      ensures questions == AnswerDeleted(old(questions), questionId, answerId)
    {
      questions := AnswerDeleted(questions, questionId, answerId);
    }
  }

  // ---------------------------------------------------------------- citations

  const University := "Vincentian University"

  /** The APA line shown when the record has none. */
  function FallbackApa(r: Research, year: nat): string
  {
    r.authorName + " (" + NatToString(year) + "). " + r.title + ". " + University + "."
  }

  /** The MLA line shown when the record has none. */
  function FallbackMla(r: Research, year: nat): string
  {
    r.authorName + ". \"" + r.title + ".\" " + University + ", " + NatToString(year) + "."
  }

  /** The citations block: shown only when the record has an APA or an MLA
      citation; a missing one is replaced by its fallback built from the
      author, the upload year and the title. */
  function CitationsShown(r: Research, uploadYear: nat): (c: Option<(string, string)>)
    ensures c.Some? <==> Present(r.citationApa) || Present(r.citationMla)
    ensures c.Some? && Present(r.citationApa) ==> c.value.0 == r.citationApa.value
    ensures c.Some? && Present(r.citationMla) ==> c.value.1 == r.citationMla.value
    ensures c.Some? && !Present(r.citationApa) ==> c.value.0 == FallbackApa(r, uploadYear) && c.value.1 == r.citationMla.value
    ensures c.Some? && !Present(r.citationMla) ==> c.value.1 == FallbackMla(r, uploadYear) && c.value.0 == r.citationApa.value
  {
    if !Present(r.citationApa) && !Present(r.citationMla) then None
    else Some((if Present(r.citationApa) then r.citationApa.value else FallbackApa(r, uploadYear),
               if Present(r.citationMla) then r.citationMla.value else FallbackMla(r, uploadYear)))
  }

  /** The fallback APA line starts with the author name and ends with the
      university. */
  lemma FallbackApaShape(r: Research, year: nat)
    ensures r.authorName <= FallbackApa(r, year)
    ensures |FallbackApa(r, year)| >= |University| + 1
    ensures FallbackApa(r, year)[|FallbackApa(r, year)| - |University| - 1..] == University + "."
  {
    var s := FallbackApa(r, year);
    var head := r.authorName + " (" + NatToString(year) + "). " + r.title + ". ";
    assert s == head + (University + ".");
  }
}
