/**
 * The state of one application-form session (the ApplicationForm component):
 * the record its setState calls update, the transitions those calls make,
 * the step and view derived from it at render time, and the component itself
 * as a class whose methods make those transitions in place.
 */
module FormSession {
  import opened Wrappers
  import opened FormSchema
  import opened AnswerStore

  /** The component's state; `currentStep` counts from 1, one step per section plus the confirmation step. */
  datatype Session = Session(
    currentStep: int,
    formSpec: Option<FormSpec>,
    isLoading: bool,
    isError: bool,
    isSubmitted: bool,
    submittedTimestamp: Option<string>,
    errorMessage: string,
    answers: seq<Answer>)

  /**
   * Reply of applicationFormService.getForEvent; `None` stands for a `formSpec`
   * that is null, which the callback tests for with `===`.
   */
  datatype FormReply = FormReply(formSpec: Option<FormSpec>, message: string)

  /** The `response` of applicationFormService.getResponse's reply, when present. */
  datatype PriorResponse = PriorResponse(isSubmitted: bool, submittedTimestamp: Option<string>)

  /** What handleSubmit sends to applicationFormService.submit. */
  datatype SubmitRequest = SubmitRequest(formId: int, finalize: bool, answers: seq<Answer>)

  /**
   * Reply of applicationFormService.submit; `None` stands for a `response_id`
   * that is null, which the callback tests for with `===` and treats as failure.
   */
  datatype SubmitReply = SubmitReply(
    responseId: Option<int>,
    message: string,
    isSubmitted: bool,
    submittedTimestamp: Option<string>)

  /** The constructor's state: loading, on step 1, nothing answered. */
  function Initial(): Session {
    Session(1, None, true, false, false, None, "", [])
  }

  /** componentDidMount, getForEvent callback. */
  function FormLoaded(s: Session, reply: FormReply): Session {
    s.(formSpec := reply.formSpec, isError := reply.formSpec.None?,
       errorMessage := reply.message, isLoading := false)
  }

  /** componentDidMount, getResponse callback: only a present response changes anything. */
  function PriorLoaded(s: Session, response: Option<PriorResponse>): Session {
    match response
    case None => s
    case Some(r) => s.(isSubmitted := r.isSubmitted, submittedTimestamp := r.submittedTimestamp)
  }

  /** handleFieldChange. */
  function FieldChanged(s: Session, fieldId: string, value: string): Session {
    s.(answers := Upsert(s.answers, ExtractId(fieldId), value))
  }

  /** nextStep. */
  function Advanced(s: Session): Session {
    s.(currentStep := s.currentStep + 1)
  }

  /** prevStep. */
  function Retreated(s: Session): Session {
    s.(currentStep := s.currentStep - 1)
  }

  /** handleSubmit, before the request goes out. */
  function SubmitStarted(s: Session): Session {
    s.(isLoading := true)
  }

  /** handleSubmit, the submit callback. */
  function SubmitReplied(s: Session, reply: SubmitReply): Session {
    s.(isError := reply.responseId.None?, errorMessage := reply.message, isLoading := false,
       isSubmitted := reply.isSubmitted, submittedTimestamp := reply.submittedTimestamp)
  }

  // ---------------------------------------------------------------------
  // Render-time derivations

  /** `numSteps`: the number of sections, 0 when the form has none. */
  function NumSteps(spec: FormSpec): nat {
    match spec.sections
    case None => 0
    case Some(sections) => |sections|
  }

  /**
   * `currentSection`: the section shown on `step`; absent on the confirmation
   * step (and for a step below 1, where the array index reads undefined).
   */
  function CurrentSection(spec: FormSpec, step: int): (r: Option<Section>)
    ensures r.Some? <==> 1 <= step <= NumSteps(spec)
    ensures r.Some? ==> r.value == SortedSections(spec).value[step - 1]
  {
    match SortedSections(spec)
    case None => None
    case Some(sections) =>
      if 1 <= step <= |sections| then Some(sections[step - 1]) else None
  }

  /** Which of Previous, Next and Submit are offered. */
  datatype Buttons = Buttons(previous: bool, next: bool, submit: bool)

  function ButtonsAt(step: int, numSteps: nat): Buttons {
    Buttons(step > 1, step <= numSteps, step > numSteps)
  }

  /** One confirmation entry: the matched question's headline and the answer's value. */
  datatype Row = Row(headline: string, value: string)

  /** The entry one answer contributes: a row under its first matching question, or nothing. */
  function RowFor(questions: seq<Question>, a: Answer): seq<Row> {
    match FindQuestion(questions, a.questionId)
    case Some(q) => [Row(q.headline, a.value)]
    case None => []
  }

  /** Confirmation: each answer that has a matching question, paired with the first such question. */
  function ConfirmationRows(answers: seq<Answer>, questions: Option<seq<Question>>): (rows: seq<Row>)
    ensures questions.None? ==> rows == []
    ensures |rows| <= |answers|
  {
    if questions.None? || answers == [] then []
    else RowFor(questions.value, answers[0]) + ConfirmationRows(answers[1..], questions)
  }

  /** `allQuestions`: the questions of the sorted sections, or absent. */
  function AllQuestionsOf(spec: FormSpec): Option<seq<Question>> {
    match SortedSections(spec)
    case None => None
    case Some(sections) => Some(AllQuestions(sections))
  }

  /** What render returns. */
  datatype View =
    | Spinner
    | ErrorAlert(message: string)
    | SubmittedPage(timestamp: Option<string>)
    | SectionPage(section: Section, questions: seq<Question>, buttons: Buttons)
    | ConfirmationPage(rows: seq<Row>, buttons: Buttons)

  /** render reaches `formSpec.sections` only past the three status checks. */
  predicate Renderable(s: Session) {
    s.isLoading || s.isError || s.isSubmitted || s.formSpec.Some?
  }

  /** render: loading first, then error, then submitted, and only then a step of the form. */
  function ViewOf(s: Session): (v: View)
    requires Renderable(s)
    ensures v.Spinner? <==> s.isLoading
    ensures v.ErrorAlert? <==> !s.isLoading && s.isError
    ensures v.ErrorAlert? ==> v.message == s.errorMessage
    ensures v.SubmittedPage? <==> !s.isLoading && !s.isError && s.isSubmitted
    ensures v.SubmittedPage? ==> v.timestamp == s.submittedTimestamp
    ensures (v.SectionPage? || v.ConfirmationPage?) ==> s.formSpec.Some?
    ensures v.SectionPage? ==> CurrentSection(s.formSpec.value, s.currentStep) == Some(v.section)
    ensures v.SectionPage? ==> v.questions == SortedQuestions(v.section)
    ensures v.SectionPage? ==> v.buttons == ButtonsAt(s.currentStep, NumSteps(s.formSpec.value))
    ensures v.ConfirmationPage? ==> v.rows == ConfirmationRows(s.answers, AllQuestionsOf(s.formSpec.value))
    ensures v.ConfirmationPage? ==> v.buttons == ButtonsAt(s.currentStep, NumSteps(s.formSpec.value))
    ensures v.ConfirmationPage? <==>
      !s.isLoading && !s.isError && !s.isSubmitted && CurrentSection(s.formSpec.value, s.currentStep).None?
  {
    if s.isLoading then Spinner
    else if s.isError then ErrorAlert(s.errorMessage)
    else if s.isSubmitted then SubmittedPage(s.submittedTimestamp)
    else
      var spec := s.formSpec.value;
      var buttons := ButtonsAt(s.currentStep, NumSteps(spec));
      match CurrentSection(spec, s.currentStep)
      case Some(section) => SectionPage(section, SortedQuestions(section), buttons)
      case None => ConfirmationPage(ConfirmationRows(s.answers, AllQuestionsOf(spec)), buttons)
  }

  // ---------------------------------------------------------------------
  // Properties of the transitions

  /** What every reachable state satisfies: no form definition only while loading or failed, one answer per id. */
  ghost predicate Consistent(s: Session) {
    && (s.formSpec.None? ==> s.isLoading || s.isError)
    && UniqueIds(s.answers)
  }

  lemma ConsistentIsRenderable(s: Session)
    requires Consistent(s)
    ensures Renderable(s)
  {
  }

  lemma InitialIsConsistent()
    ensures Consistent(Initial()) && ViewOf(Initial()) == Spinner
  {
  }

  /** The mount callbacks keep Consistent: a missing form definition always comes with the error flag. */
  lemma MountKeepsConsistent(s: Session, formReply: FormReply, prior: Option<PriorResponse>)
    requires Consistent(s)
    ensures Consistent(FormLoaded(s, formReply)) && Consistent(PriorLoaded(s, prior))
  {
  }

  /** A field change keeps Consistent: the upsert leaves one answer per id. */
  lemma FieldChangeKeepsConsistent(s: Session, fieldId: string, value: string)
    requires Consistent(s)
    ensures Consistent(FieldChanged(s, fieldId, value))
  {
    UpsertKeepsUnique(s.answers, ExtractId(fieldId), value);
  }

  /** Navigation keeps Consistent. */
  lemma NavigationKeepsConsistent(s: Session)
    requires Consistent(s)
    ensures Consistent(Advanced(s)) && Consistent(Retreated(s))
  {
  }

  /**
   * Submitting keeps Consistent; the reply is considered for a session that
   * has a form definition, since the request read its id.
   */
  lemma SubmitKeepsConsistent(s: Session, reply: SubmitReply)
    requires Consistent(s) && s.formSpec.Some?
    ensures Consistent(SubmitStarted(s)) && Consistent(SubmitReplied(SubmitStarted(s), reply))
  {
  }

  /** nextStep and prevStep change only the step, by one each way, and undo each other. */
  lemma NavigationRoundTrip(s: Session)
    ensures Advanced(s).currentStep == s.currentStep + 1 && Retreated(s).currentStep == s.currentStep - 1
    ensures Advanced(s).(currentStep := s.currentStep) == s && Retreated(s).(currentStep := s.currentStep) == s
    ensures Retreated(Advanced(s)) == s && Advanced(Retreated(s)) == s
  {
  }

  /** The steps a form has: one per section, then the confirmation step. */
  predicate StepInRange(spec: FormSpec, step: int) {
    1 <= step <= NumSteps(spec) + 1
  }

  /** On every step, Next and Submit are never both offered, and Previous is offered exactly past the first step. */
  lemma ButtonsExclusive(step: int, numSteps: nat)
    ensures !(ButtonsAt(step, numSteps).next && ButtonsAt(step, numSteps).submit)
    ensures ButtonsAt(step, numSteps).previous <==> step > 1
  {
  }

  /** Within the form's steps, Next is offered exactly on a section step and Submit exactly on the confirmation step. */
  lemma ButtonsMatchView(spec: FormSpec, step: int)
    requires StepInRange(spec, step)
    ensures ButtonsAt(step, NumSteps(spec)).next <==> CurrentSection(spec, step).Some?
    ensures ButtonsAt(step, NumSteps(spec)).submit <==> CurrentSection(spec, step).None?
  {
  }

  /** Navigating only through offered buttons keeps the step within the form's steps. */
  lemma OfferedNavigationStaysInRange(s: Session)
    requires s.formSpec.Some? && StepInRange(s.formSpec.value, s.currentStep)
    ensures ButtonsAt(s.currentStep, NumSteps(s.formSpec.value)).next ==>
      StepInRange(s.formSpec.value, Advanced(s).currentStep)
    ensures ButtonsAt(s.currentStep, NumSteps(s.formSpec.value)).previous ==>
      StepInRange(s.formSpec.value, Retreated(s).currentStep)
  {
  }

  /** `k` presses of Next. */
  function AdvancedTimes(s: Session, k: nat): Session {
    if k == 0 then s else Advanced(AdvancedTimes(s, k - 1))
  }

  lemma {:induction false} AdvancedTimesStep(s: Session, k: nat)
    ensures AdvancedTimes(s, k) == s.(currentStep := s.currentStep + k)
  {
    if k > 0 {
      AdvancedTimesStep(s, k - 1);
    }
  }

  /**
   * From step 1, Next is offered on each of the first `numSteps` steps, and
   * pressing it that many times reaches the confirmation step.
   */
  lemma ReachConfirmation(s: Session)
    requires s.formSpec.Some? && s.currentStep == 1
    ensures forall k: nat | k < NumSteps(s.formSpec.value) ::
      ButtonsAt(AdvancedTimes(s, k).currentStep, NumSteps(s.formSpec.value)).next
    ensures AdvancedTimes(s, NumSteps(s.formSpec.value)).currentStep == NumSteps(s.formSpec.value) + 1
    ensures CurrentSection(s.formSpec.value, AdvancedTimes(s, NumSteps(s.formSpec.value)).currentStep).None?
    ensures ButtonsAt(AdvancedTimes(s, NumSteps(s.formSpec.value)).currentStep, NumSteps(s.formSpec.value)).submit
  {
    forall k: nat | k <= NumSteps(s.formSpec.value)
      ensures AdvancedTimes(s, k).currentStep == k + 1
    {
      AdvancedTimesStep(s, k);
    }
  }

  /** The two mount callbacks write disjoint fields, so the order they arrive in does not matter. */
  lemma MountCallbacksCommute(s: Session, formReply: FormReply, prior: Option<PriorResponse>)
    ensures FormLoaded(PriorLoaded(s, prior), formReply) == PriorLoaded(FormLoaded(s, formReply), prior)
  {
  }

  /**
   * A form that was already submitted ends on the submitted page in either
   * arrival order. When the prior response arrives first, the spinner stays
   * until the form definition arrives. When the form definition arrives first,
   * loading ends without waiting for the prior response, so step 1 is shown,
   * editable, in between: its first section, or confirmation when there is none.
   */
  lemma PriorSubmissionView(formReply: FormReply, timestamp: Option<string>)
    requires formReply.formSpec.Some?
    ensures var prior := Some(PriorResponse(true, timestamp));
      && ViewOf(PriorLoaded(Initial(), prior)) == Spinner
      && ViewOf(FormLoaded(PriorLoaded(Initial(), prior), formReply)) == SubmittedPage(timestamp)
      && ViewOf(PriorLoaded(FormLoaded(Initial(), formReply), prior)) == SubmittedPage(timestamp)
    ensures var spec := formReply.formSpec.value;
      var between := ViewOf(FormLoaded(Initial(), formReply));
      && (NumSteps(spec) >= 1 ==> between.SectionPage? && between.section == SortedSections(spec).value[0])
      && (NumSteps(spec) == 0 ==> between.ConfirmationPage?)
  {
  }

  /** A form definition that does not arrive leaves the session on the error alert with the service's message. */
  lemma MissingFormShowsError(s: Session, formReply: FormReply)
    requires formReply.formSpec.None?
    ensures ViewOf(FormLoaded(s, formReply)) == ErrorAlert(formReply.message)
  {
  }

  /**
   * Submitting: the spinner shows while the request is out; once the reply
   * arrives loading is over, the error flag holds exactly when the reply has
   * no response id, message, submitted flag and timestamp come from the reply,
   * and the answers, the step and the form definition are untouched.
   */
  lemma SubmitOutcome(s: Session, reply: SubmitReply)
    requires s.formSpec.Some?
    ensures ViewOf(SubmitStarted(s)) == Spinner
    ensures var t := SubmitReplied(SubmitStarted(s), reply);
      && !t.isLoading
      && (t.isError <==> reply.responseId.None?)
      && t.errorMessage == reply.message
      && t.isSubmitted == reply.isSubmitted
      && t.submittedTimestamp == reply.submittedTimestamp
      && t.answers == s.answers && t.currentStep == s.currentStep && t.formSpec == s.formSpec
      && (reply.responseId.None? ==> ViewOf(t) == ErrorAlert(reply.message))
      && (reply.responseId.Some? && reply.isSubmitted ==> ViewOf(t) == SubmittedPage(reply.submittedTimestamp))
  {
  }

  /** Confirmation shows an answer only when some question carries its id. */
  lemma {:induction false} ConfirmationRowsMatch(answers: seq<Answer>, questions: seq<Question>)
    ensures forall r | r in ConfirmationRows(answers, Some(questions)) ::
      exists a, q :: a in answers && q in questions && q.id == a.questionId && r == Row(q.headline, a.value)
  {
    if answers != [] {
      ConfirmationRowsMatch(answers[1..], questions);
      var rest := ConfirmationRows(answers[1..], Some(questions));
      forall r | r in rest
        ensures exists a, q :: a in answers && q in questions && q.id == a.questionId && r == Row(q.headline, a.value)
      {
        var a, q :| a in answers[1..] && q in questions && q.id == a.questionId && r == Row(q.headline, a.value);
        assert a in answers;
      }
      var found := FindQuestion(questions, answers[0].questionId);
      if found.Some? {
        var i :| 0 <= i < |questions| && questions[i] == found.value && found.value.id == answers[0].questionId;
        assert questions[i] in questions;
      }
    }
  }

  /**
   * Confirmation's rows for any answers: appending an answer appends its row
   * under the first matching question, or nothing when no question matches.
   */
  lemma {:induction false} ConfirmationRowsSnoc(answers: seq<Answer>, a: Answer, questions: seq<Question>)
    ensures ConfirmationRows(answers + [a], Some(questions)) ==
      ConfirmationRows(answers, Some(questions)) +
      (match FindQuestion(questions, a.questionId)
       case Some(q) => [Row(q.headline, a.value)]
       case None => [])
  {
    if answers == [] {
      assert answers + [a] == [a] && [a][1..] == [];
    } else {
      assert (answers + [a])[0] == answers[0] && (answers + [a])[1..] == answers[1..] + [a];
      ConfirmationRowsSnoc(answers[1..], a, questions);
    }
  }

  /** When every answer has a question, Confirmation lists every answer, in order, under its first matching question. */
  lemma {:induction false} ConfirmationListsAllAnswers(answers: seq<Answer>, questions: seq<Question>)
    requires forall a | a in answers :: FindQuestion(questions, a.questionId).Some?
    ensures |ConfirmationRows(answers, Some(questions))| == |answers|
    ensures forall i | 0 <= i < |answers| ::
      ConfirmationRows(answers, Some(questions))[i] ==
      Row(FindQuestion(questions, answers[i].questionId).value.headline, answers[i].value)
  {
    if answers != [] {
      assert forall a | a in answers[1..] :: a in answers;
      ConfirmationListsAllAnswers(answers[1..], questions);
      assert answers[0] in answers;
      var rows := ConfirmationRows(answers, Some(questions));
      forall i | 0 <= i < |answers|
        ensures rows[i] == Row(FindQuestion(questions, answers[i].questionId).value.headline, answers[i].value)
      {
        if i > 0 {
          assert answers[i] == answers[1..][i - 1];
        }
      }
    }
  }

  // ---------------------------------------------------------------------
  // The component

  /** ApplicationForm: the session state held in fields, updated in place by its handlers. */
  class ApplicationForm {
    var currentStep: int
    var formSpec: Option<FormSpec>
    var isLoading: bool
    var isError: bool
    var isSubmitted: bool
    var submittedTimestamp: Option<string>
    var errorMessage: string
    var answers: seq<Answer>

    /** The fields as one Session value. */
    function State(): Session
      reads this
    {
      Session(currentStep, formSpec, isLoading, isError, isSubmitted, submittedTimestamp, errorMessage, answers)
    }

    constructor ()
      ensures State() == Initial()
    {
      currentStep := 1;
      formSpec := None;
      isLoading := true;
      isError := false;
      isSubmitted := false;
      submittedTimestamp := None;
      errorMessage := "";
      answers := [];
    }

    method HandleFieldChange(fieldId: string, value: string)
      modifies this
      ensures State() == FieldChanged(old(State()), fieldId, value)
      ensures Count(answers, ExtractId(fieldId)) == 1 && Lookup(answers, ExtractId(fieldId)) == Some(value)
      ensures UniqueIds(old(answers)) ==> UniqueIds(answers)
    {
      var questionId := ExtractId(fieldId);
      var otherAnswers := Without(answers, questionId);
      answers := otherAnswers + [Answer(questionId, value)];
      UpsertCount(old(answers), questionId, value, questionId);
      UpsertLookup(old(answers), questionId, value, questionId);
      if UniqueIds(old(answers)) {
        UpsertKeepsUnique(old(answers), questionId, value);
      }
    }

    /** The getForEvent callback of componentDidMount. */
    method OnFormLoaded(reply: FormReply)
      modifies this
      ensures State() == FormLoaded(old(State()), reply)
    {
      formSpec := reply.formSpec;
      isError := reply.formSpec.None?;
      errorMessage := reply.message;
      isLoading := false;
    }

    /** The getResponse callback of componentDidMount. */
    method OnPriorResponse(response: Option<PriorResponse>)
      modifies this
      ensures State() == PriorLoaded(old(State()), response)
    {
      if response.Some? {
        isSubmitted := response.value.isSubmitted;
        submittedTimestamp := response.value.submittedTimestamp;
      }
    }

    method NextStep()
      modifies this
      ensures State() == Advanced(old(State()))
    {
      var step := currentStep;
      currentStep := step + 1;
    }

    method PrevStep()
      modifies this
      ensures State() == Retreated(old(State()))
    {
      var step := currentStep;
      currentStep := step - 1;
    }

    /** handleSubmit up to sending the request; the form definition's id is read here. */
    method HandleSubmit() returns (request: SubmitRequest)
      requires formSpec.Some?
      modifies this
      ensures State() == SubmitStarted(old(State()))
      ensures request.formId == old(formSpec).value.id && request.finalize && request.answers == old(answers)
    {
      isLoading := true;
      request := SubmitRequest(formSpec.value.id, true, answers);
    }

    /** The callback of applicationFormService.submit. */
    method OnSubmitReply(reply: SubmitReply)
      modifies this
      ensures State() == SubmitReplied(old(State()), reply)
    {
      var submitError := reply.responseId.None?;
      isError := submitError;
      errorMessage := reply.message;
      isLoading := false;
      isSubmitted := reply.isSubmitted;
      submittedTimestamp := reply.submittedTimestamp;
    }
  }
}
