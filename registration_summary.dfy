/**
 * The text of the registration confirmation e-mail (api/app/registration/response.py):
 * how a stored answer is displayed, the payment note, and the summary of every
 * answered question that send_confirmation puts in the body.
 */
module RegistrationSummary {
  import opened Wrappers
  import opened Sequences

  /** One option of a multiple-choice registration question; `caption` is its label. */
  datatype Choice = Choice(value: string, caption: string)

  datatype RegistrationQuestion = RegistrationQuestion(
    id: int,
    qtype: string,
    headline: string,
    description: string,
    options: Option<seq<Choice>>)

  datatype RegistrationAnswer = RegistrationAnswer(questionId: int, value: string)

  const UploadedFile := "Uploaded File"
  const PendingPayment := "\nregistration is pending confirmation on receipt of payment.\n\n"
  const NothingAnswered := "\nNo valid questions were answered"

  /** Some option of `options` has the value `value`. */
  ghost predicate HasOption(options: seq<Choice>, value: string) {
    exists i | 0 <= i < |options| :: options[i].value == value
  }

  /** `caption` is the label of the first option whose value is `value`. */
  ghost predicate FirstLabel(options: seq<Choice>, value: string, caption: string) {
    exists i | 0 <= i < |options| ::
      options[i].value == value && options[i].caption == caption
      && forall j | 0 <= j < i :: options[j].value != value
  }

  /** _get_answer_value: the text shown for an answer to a question. */
  function AnswerValue(answer: RegistrationAnswer, question: RegistrationQuestion): (r: string)
    ensures question.qtype == "multi-choice" && question.options.Some? ==>
      if HasOption(question.options.value, answer.value)
      then FirstLabel(question.options.value, answer.value, r)
      else r == answer.value
    ensures question.qtype == "file" && answer.value != "" ==> r == UploadedFile
    ensures (!(question.qtype == "multi-choice" && question.options.Some?)
             && !(question.qtype == "file" && answer.value != "")) ==> r == answer.value
  {
    if question.qtype == "multi-choice" && question.options.Some? then
      var options := question.options.value;
      var i := FirstIndex(options, (o: Choice) => o.value == answer.value);
      if i < 0 then answer.value
      else
        assert options[i].value == answer.value;
        options[i].caption
    else if question.qtype == "file" && answer.value != "" then UploadedFile
    else answer.value
  }

  /** get_confirmed_message: the payment note for an unconfirmed registration, nothing otherwise. */
  function ConfirmedMessage(confirmed: bool): (r: string)
    ensures r == "" <==> confirmed
    ensures !confirmed ==> r == PendingPayment
  {
    if !confirmed then PendingPayment else ""
  }

  /** One summary block: heading, description and displayed answer. */
  function Block(answer: RegistrationAnswer, question: RegistrationQuestion): string {
    "Question heading :" + question.headline + "\nQuestion Description :" + question.description
    + "\nAnswer :" + AnswerValue(answer, question) + "\n"
  }

  /** The questions `answer` belongs to, paired with it, in question order. */
  function MatchesOf(answer: RegistrationAnswer, questions: seq<RegistrationQuestion>)
    : seq<(RegistrationAnswer, RegistrationQuestion)>
  {
    if questions == [] then []
    else
      var last := questions[|questions| - 1];
      MatchesOf(answer, questions[..|questions| - 1])
      + (if answer.questionId == last.id then [(answer, last)] else [])
  }

  /** Every (answer, question) pair with equal ids: answer order first, then question order. */
  function Pairs(answers: seq<RegistrationAnswer>, questions: seq<RegistrationQuestion>)
    : seq<(RegistrationAnswer, RegistrationQuestion)>
  {
    if answers == [] then []
    else Pairs(answers[..|answers| - 1], questions) + MatchesOf(answers[|answers| - 1], questions)
  }

  function BlockOf(pair: (RegistrationAnswer, RegistrationQuestion)): string {
    Block(pair.0, pair.1)
  }

  /** The blocks of `pairs`, concatenated in order. */
  function Blocks(pairs: seq<(RegistrationAnswer, RegistrationQuestion)>): string {
    Flatten(pairs, BlockOf)
  }

  /** The summary send_confirmation builds before the empty-summary fallback. */
  function Summary(answers: seq<RegistrationAnswer>, questions: seq<RegistrationQuestion>): string {
    Blocks(Pairs(answers, questions))
  }

  lemma {:induction false} MatchesOfMembers(answer: RegistrationAnswer, questions: seq<RegistrationQuestion>,
                                           p: (RegistrationAnswer, RegistrationQuestion))
    ensures p in MatchesOf(answer, questions) <==> p.0 == answer && p.1 in questions && answer.questionId == p.1.id
  {
    if questions != [] {
      var init := questions[..|questions| - 1];
      MatchesOfMembers(answer, init, p);
      assert questions == init + [questions[|questions| - 1]];
    }
  }

  /** A pair is summarised exactly when it is an answer and a question with the same id. */
  lemma {:induction false} PairsMembers(answers: seq<RegistrationAnswer>, questions: seq<RegistrationQuestion>,
                                        p: (RegistrationAnswer, RegistrationQuestion))
    ensures p in Pairs(answers, questions) <==> p.0 in answers && p.1 in questions && p.0.questionId == p.1.id
  {
    if answers != [] {
      var init := answers[..|answers| - 1];
      PairsMembers(init, questions, p);
      MatchesOfMembers(answers[|answers| - 1], questions, p);
      assert answers == init + [answers[|answers| - 1]];
    }
  }

  lemma MatchesOfSnoc(answer: RegistrationAnswer, questions: seq<RegistrationQuestion>, q: RegistrationQuestion)
    ensures MatchesOf(answer, questions + [q]) ==
      MatchesOf(answer, questions) + (if answer.questionId == q.id then [(answer, q)] else [])
  {
    assert (questions + [q])[..|questions|] == questions;
  }

  lemma PairsSnoc(answers: seq<RegistrationAnswer>, a: RegistrationAnswer, questions: seq<RegistrationQuestion>)
    ensures Pairs(answers + [a], questions) == Pairs(answers, questions) + MatchesOf(a, questions)
  {
    assert (answers + [a])[..|answers|] == answers;
  }

  /** Blocks of one answer come in question order. */
  lemma {:induction false} MatchesOfAppend(answer: RegistrationAnswer, qs1: seq<RegistrationQuestion>,
                                           qs2: seq<RegistrationQuestion>)
    ensures MatchesOf(answer, qs1 + qs2) == MatchesOf(answer, qs1) + MatchesOf(answer, qs2)
  {
    if qs2 == [] {
      assert qs1 + qs2 == qs1;
    } else {
      var init, last := qs2[..|qs2| - 1], qs2[|qs2| - 1];
      assert qs2 == init + [last];
      assert qs1 + qs2 == (qs1 + init) + [last];
      MatchesOfSnoc(answer, qs1 + init, last);
      MatchesOfSnoc(answer, init, last);
      MatchesOfAppend(answer, qs1, init);
    }
  }

  /** Blocks come in answer order: the pairs of a split answer list are the two parts' pairs in turn. */
  lemma {:induction false} PairsAppend(as1: seq<RegistrationAnswer>, as2: seq<RegistrationAnswer>,
                                       questions: seq<RegistrationQuestion>)
    ensures Pairs(as1 + as2, questions) == Pairs(as1, questions) + Pairs(as2, questions)
  {
    if as2 == [] {
      assert as1 + as2 == as1;
    } else {
      var init, last := as2[..|as2| - 1], as2[|as2| - 1];
      calc {
        Pairs(as1 + as2, questions);
        == { assert as1 + as2 == (as1 + init) + [last]; }
        Pairs((as1 + init) + [last], questions);
        == { PairsSnoc(as1 + init, last, questions); }
        Pairs(as1 + init, questions) + MatchesOf(last, questions);
        == { PairsAppend(as1, init, questions); }
        Pairs(as1, questions) + Pairs(init, questions) + MatchesOf(last, questions);
        == { assert as2 == init + [last]; PairsSnoc(init, last, questions); }
        Pairs(as1, questions) + Pairs(as2, questions);
      }
    }
  }

  /** The summary is the single answer's blocks followed by the rest's: answer-major order. */
  lemma SummaryAnswerMajor(answer: RegistrationAnswer, rest: seq<RegistrationAnswer>,
                           questions: seq<RegistrationQuestion>)
    ensures Summary([answer] + rest, questions) == Blocks(MatchesOf(answer, questions)) + Summary(rest, questions)
  {
    PairsAppend([answer], rest, questions);
    assert Pairs([answer], questions) == MatchesOf(answer, questions) by {
      assert [answer][..0] == [];
    }
    FlattenAppend(MatchesOf(answer, questions), Pairs(rest, questions), BlockOf);
  }

  /** The summary is empty exactly when no answer has a question with its id. */
  lemma SummaryEmptyIff(answers: seq<RegistrationAnswer>, questions: seq<RegistrationQuestion>)
    ensures Summary(answers, questions) == "" <==>
      forall a, q | a in answers && q in questions :: a.questionId != q.id
  {
    var pairs := Pairs(answers, questions);
    if pairs == [] {
      forall a, q | a in answers && q in questions ensures a.questionId != q.id {
        PairsMembers(answers, questions, (a, q));
      }
    } else {
      var last := pairs[|pairs| - 1];
      assert |BlockOf(last)| > 0;
      assert last in pairs;
      PairsMembers(answers, questions, last);
    }
  }

  lemma MatchesOfStep(answer: RegistrationAnswer, questions: seq<RegistrationQuestion>, j: nat)
    requires j < |questions|
    ensures MatchesOf(answer, questions[..j + 1]) ==
      MatchesOf(answer, questions[..j]) + (if answer.questionId == questions[j].id then [(answer, questions[j])] else [])
  {
    assert questions[..j + 1][..j] == questions[..j];
  }

  lemma PairsStep(answers: seq<RegistrationAnswer>, questions: seq<RegistrationQuestion>, i: nat)
    requires i < |answers|
    ensures Pairs(answers[..i + 1], questions) == Pairs(answers[..i], questions) + MatchesOf(answers[i], questions)
  {
    assert answers[..i + 1][..i] == answers[..i];
  }

  /** send_confirmation's nested loop: append one block per matching (answer, question). */
  method BuildSummary(answers: seq<RegistrationAnswer>, questions: seq<RegistrationQuestion>)
    returns (summary: string)
    ensures summary == Summary(answers, questions)
  {
    summary := "";
    var i := 0;
    while i < |answers|
      invariant 0 <= i <= |answers|
      invariant summary == Blocks(Pairs(answers[..i], questions))
    {
      var answer := answers[i];
      ghost var done := Pairs(answers[..i], questions);
      var j := 0;
      assert MatchesOf(answer, questions[..0]) == [] && done + [] == done;
      while j < |questions|
        invariant 0 <= j <= |questions|
        invariant summary == Blocks(done + MatchesOf(answer, questions[..j]))
      {
        var question := questions[j];
        ghost var before := done + MatchesOf(answer, questions[..j]);
        MatchesOfStep(answer, questions, j);
        if answer.questionId == question.id {
          assert done + MatchesOf(answer, questions[..j + 1]) == before + [(answer, question)];
          FlattenSnoc(before, (answer, question), BlockOf);
          summary := summary + Block(answer, question);
        } else {
          assert done + MatchesOf(answer, questions[..j + 1]) == before;
        }
        j := j + 1;
      }
      assert questions[..j] == questions;
      PairsStep(answers, questions, i);
      i := i + 1;
    }
    assert answers[..i] == answers;
  }

  /** The e-mail body: greeting, payment note, a blank line, then the summary or its fallback. */
  function EmailBody(greeting: string, confirmed: bool, summary: string): string {
    greeting + ConfirmedMessage(confirmed) + "\n\n" + (if |summary| <= 0 then NothingAnswered else summary)
  }

  /**
   * The body send_confirmation mails, or None where building it raises inside
   * the `try` (iterating a None list of answers, or a None list of questions
   * once there is an answer) and no e-mail is sent.
   */
  method ConfirmationBody(greeting: string, questions: Option<seq<RegistrationQuestion>>,
                          answers: Option<seq<RegistrationAnswer>>, confirmed: bool)
    returns (body: Option<string>)
    ensures body.None? <==> answers.None? || (answers.value != [] && questions.None?)
    ensures body.Some? ==>
      var qs := if questions.Some? then questions.value else [];
      && (!(forall a, q | a in answers.value && q in qs :: a.questionId != q.id) ==>
            body.value == greeting + ConfirmedMessage(confirmed) + "\n\n" + Summary(answers.value, qs))
      && ((forall a, q | a in answers.value && q in qs :: a.questionId != q.id) ==>
            body.value == greeting + ConfirmedMessage(confirmed) + "\n\n" + NothingAnswered)
  {
    if answers.None? || (answers.value != [] && questions.None?) {
      return None;
    }
    var qs := if questions.Some? then questions.value else [];
    var summary := BuildSummary(answers.value, qs);
    SummaryEmptyIff(answers.value, qs);
    body := Some(EmailBody(greeting, confirmed, summary));
  }
}
