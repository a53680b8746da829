/** The question-and-answer panel (src/components/research/QASection.tsx):
    who may moderate, which delete controls and badges are shown, and the
    two input forms that post questions and answers. */
module QASection {
  import opened Wrappers
  import opened Text
  import opened Types

  /** Whether `user` is present and an administrator or the owner `ownerId`:
      `isAuthorOrAdmin` with the research's author as owner, and the guard of
      each delete control with the post's writer as owner. */
  predicate AdminOrOwner(user: Option<User>, ownerId: string)
  {
    user.Some? && (user.value.role == Admin || user.value.id == ownerId)
  }

  /** The delete control of a question. */
  function ShowDeleteQuestion(user: Option<User>, q: QAQuestion, hasHandler: bool): (b: bool)
    ensures b <==> hasHandler && user.Some? && (user.value.role == Admin || user.value.id == q.userId)
  {
    AdminOrOwner(user, q.userId) && hasHandler
  }

  /** The delete control of an answer. */
  function ShowDeleteAnswer(user: Option<User>, a: QAAnswer, hasHandler: bool): (b: bool)
    ensures b <==> hasHandler && user.Some? && (user.value.role == Admin || user.value.id == a.userId)
  {
    AdminOrOwner(user, a.userId) && hasHandler
  }

  /** The "Author" badge of an answer. */
  function IsAuthorBadge(a: QAAnswer, authorId: string): (b: bool)
    ensures b <==> a.userId == authorId
  {
    a.userId == authorId
  }

  /** An administrator sees every delete control that has a handler. */
  lemma AdminSeesAllDeletes(user: User, q: QAQuestion, a: QAAnswer, authorId: string)
    requires user.role == Admin
    ensures ShowDeleteQuestion(Some(user), q, true) && ShowDeleteAnswer(Some(user), a, true)
    ensures AdminOrOwner(Some(user), authorId)
  {
  }

  /** A signed-out visitor sees none. */
  lemma VisitorSeesNoDeletes(q: QAQuestion, a: QAAnswer, hasHandler: bool, authorId: string)
    ensures !ShowDeleteQuestion(None, q, hasHandler) && !ShowDeleteAnswer(None, a, hasHandler)
    ensures !AdminOrOwner(None, authorId)
  {
  }

  /** Text that is empty once trimmed is not posted. */
  predicate Blank(s: string)
  {
    Trim(s) == ""
  }

  /** The two inputs of the panel: the question box and one answer box per
      question (a missing key is an input never typed in). */
  class QAForm {
    var newQuestion: string
    var answerInputs: map<string, string>

    constructor ()
      ensures newQuestion == "" && answerInputs == map[]
    {
      newQuestion := "";
      answerInputs := map[];
    }

    /** `handleSubmitQuestion`: blank text or a signed-out visitor posts
        nothing and keeps the input; otherwise the text as typed is posted
        and the input cleared. */
    method SubmitQuestion(isAuthenticated: bool) returns (posted: Option<string>)
      modifies this
      ensures Blank(old(newQuestion)) || !isAuthenticated ==> posted.None? && newQuestion == old(newQuestion)
      ensures !Blank(old(newQuestion)) && isAuthenticated ==> posted == Some(old(newQuestion)) && newQuestion == ""
      ensures answerInputs == old(answerInputs)
    {
      if Trim(newQuestion) == "" {
        return None;
      }
      if !isAuthenticated {
        return None;
      }
      posted := Some(newQuestion);
      newQuestion := "";
    }

    /** `handleSubmitAnswer`: an input never typed in or blank posts nothing;
        otherwise its text is posted and only that input is reset. */
    method SubmitAnswer(questionId: string) returns (posted: Option<string>)
      modifies this
      ensures questionId !in old(answerInputs) || Blank(old(answerInputs)[questionId]) ==>
                posted.None? && answerInputs == old(answerInputs)
      ensures questionId in old(answerInputs) && !Blank(old(answerInputs)[questionId]) ==>
                posted == Some(old(answerInputs)[questionId]) && answerInputs == old(answerInputs)[questionId := ""]
      ensures newQuestion == old(newQuestion)
    {
      if questionId !in answerInputs {
        return None;
      }
      var content := answerInputs[questionId];
      if Trim(content) == "" {
        return None;
      }
      posted := Some(content);
      answerInputs := answerInputs[questionId := ""];
    }
  }

  /** What is posted is never blank: the guard and the posting agree. */
  lemma PostedNotBlank(content: string)
    requires !Blank(content)
    ensures content != "" && exists i :: 0 <= i < |content| && !IsSpace(content[i])
  {
    if forall i :: 0 <= i < |content| ==> IsSpace(content[i]) {
      TrimEmptyIffAllSpace(content);
    }
  }

  /** Resetting one answer input leaves the others as typed. */
  lemma ResetKeepsOthers(inputs: map<string, string>, questionId: string, other: string)
    requires other != questionId && other in inputs
    ensures other in inputs[questionId := ""] && inputs[questionId := ""][other] == inputs[other]
  {
  }
}
