# Application form session and registration summary, in Dafny

This project models two small cores of the Baobab event-application system
and proves properties of them.

* **The application form** (`webapp/src/pages/applicationForm/components/ApplicationForm.js`).
  A form definition (`formSpec`) holds sections, and the sections hold typed
  questions. The form is shown one section per step, followed by a
  confirmation step and a submit. The model covers:
  * the answer store that `handleFieldChange` updates (module `AnswerStore`);
  * the sorting of sections and questions by `order`, the `Confirmation`
    lookup, and the `formControl` dispatch on the question type (module
    `FormSchema`, using the stable sort and first-match search of module
    `Sequences`);
  * the component state with its mount, navigation and submit transitions, and
    the view and buttons that `render` derives from that state (module
    `FormSession`). The component is the class `FormSession.ApplicationForm`.
    Its fields are the state fields and its methods update them in place.
    Each method is specified by a pure transition on the `Session` record, and
    the lemmas are stated about those transitions.
* **The registration confirmation e-mail** (`api/app/registration/response.py`),
  in module `RegistrationSummary`. It covers how a stored answer is displayed
  (`_get_answer_value`), the payment note (`get_confirmed_message`), and the
  nested loop in `send_confirmation` that builds the summary. That loop is a
  method whose invariants tie it to a specification function. The empty-summary
  fallback and the body layout are modelled as well.

The services the form calls (`getForEvent`, `getResponse`, `submit`) become
reply values passed to the transition that handles them. The e-mail greeting is
a string parameter, because `strings.build_response_email_greeting` is not
part of this model.

Three behaviours of the code to note:
* After a failed submit, the code renders only the error alert. No step or
  button is offered, so the user cannot go back and resubmit from that screen.
* A question id is taken as the text after the *last* `_` of the field id. The
  code does not strip a fixed prefix.
* The form-definition callback ends loading without waiting for the prior
  response. When a form was already submitted and its definition arrives
  first, step 1 of the form is shown, editable, until the prior response
  arrives and the submitted page replaces it.

## Model

| member | source | states |
|---|---|---|
| `Sequences.FirstIndex` | webapp/src/pages/applicationForm/components/ApplicationForm.js:134 | the index of the first element satisfying the predicate, and no earlier one does; -1 when none does |
| `Sequences.SortBy` | webapp/src/pages/applicationForm/components/ApplicationForm.js:262 | the sorted copy is a permutation of the input (same length and multiset) in ascending key order |
| `Sequences.SortByStable` | webapp/src/pages/applicationForm/components/ApplicationForm.js:262 | the sort is stable: for every key, the elements with that key keep their input order |
| `AnswerStore.LastIndexOf` | webapp/src/pages/applicationForm/components/ApplicationForm.js:184 | `lastIndexOf`: the result holds the character and nothing after it does; -1 when the character is absent |
| `AnswerStore.ExtractId` | webapp/src/pages/applicationForm/components/ApplicationForm.js:184 | the extracted id is a suffix of the field id with no `_` in it, and is preceded by `_` unless it is the whole field id |
| `AnswerStore.ExtractIdOfFieldId` | webapp/src/pages/applicationForm/components/ApplicationForm.js:37 | for a question id with no `_`, extracting from `"question_" + id` gives the id back |
| `AnswerStore.WithoutMembers` | webapp/src/pages/applicationForm/components/ApplicationForm.js:185 | the filter keeps exactly the answers whose id differs from the given one |
| `AnswerStore.WithoutAppend` | webapp/src/pages/applicationForm/components/ApplicationForm.js:185 | the filter distributes over concatenation, so the answers it keeps stay in their relative order |
| `AnswerStore.UpsertCount` | webapp/src/pages/applicationForm/components/ApplicationForm.js:183-193 | after an upsert exactly one answer carries the id; every other id keeps its number of answers |
| `AnswerStore.UpsertLookup` | webapp/src/pages/applicationForm/components/ApplicationForm.js:183-193 | last write wins: the id reads back the new value, and every other id reads as before |
| `AnswerStore.UpsertKeepsUnique` | webapp/src/pages/applicationForm/components/ApplicationForm.js:183-193 | an upsert never leaves two answers with the same question id |
| `FormSchema.SortedSections` | webapp/src/pages/applicationForm/components/ApplicationForm.js:262 | the sections are a sorted copy (a permutation in ascending `order`), or absent exactly when the form has none |
| `FormSchema.SortedSectionsStable` | webapp/src/pages/applicationForm/components/ApplicationForm.js:262 | sections with equal `order` keep the server's order |
| `FormSchema.SortedQuestions` | webapp/src/pages/applicationForm/components/ApplicationForm.js:106 | a section's questions are a permutation of its stored list in ascending `order` |
| `FormSchema.SortedQuestionsStable` | webapp/src/pages/applicationForm/components/ApplicationForm.js:106 | questions with equal `order` keep their stored order |
| `FormSchema.AllQuestions` | webapp/src/pages/applicationForm/components/ApplicationForm.js:263 | the flattened list holds exactly the questions of the sections; one section flattens to its own list |
| `FormSchema.AllQuestionsAppend` | webapp/src/pages/applicationForm/components/ApplicationForm.js:263 | flattening distributes over concatenation: the sections' lists are joined in section order, duplicates kept |
| `FormSchema.FindQuestionAt` | webapp/src/pages/applicationForm/components/ApplicationForm.js:134 | `find` returns the question at the first index that carries the id |
| `FormSchema.FindQuestionAppend` | webapp/src/pages/applicationForm/components/ApplicationForm.js:134 | `find` over a joined list returns the first part's match when there is one, otherwise the second part's |
| `FormSchema.FindQuestion` | webapp/src/pages/applicationForm/components/ApplicationForm.js:134 | `find`: absent exactly when no question has the id; otherwise the first question with it |
| `FormSchema.FormControl` | webapp/src/pages/applicationForm/components/ApplicationForm.js:36-92 | a warning exactly for an unrecognised tag; both long-text spellings give a 5-row text area; multi-choice gives a select over the options, wired to the dropdown callback; every input carries `"question_" + id` |
| `FormSchema.ControlWritesOwnAnswer` | webapp/src/pages/applicationForm/components/ApplicationForm.js:22-37 | a change in a recognised control stores exactly one answer under its question's id, holding the new value; an unrecognised type stores nothing |
| `FormSession.CurrentSection` | webapp/src/pages/applicationForm/components/ApplicationForm.js:270 | present exactly when `1 <= currentStep <= numSteps`, and then it is `sections[currentStep-1]` |
| `FormSession.ConfirmationRows` | webapp/src/pages/applicationForm/components/ApplicationForm.js:129-150 | no rows when the question list is absent; never more rows than answers |
| `FormSession.ViewOf` | webapp/src/pages/applicationForm/components/ApplicationForm.js:247-295 | spinner iff loading; else error alert with the message iff error; else submitted page with the timestamp iff submitted; else the current section, or confirmation exactly when there is no current section; a section page carries the section's questions sorted by `order` and the buttons for the current step; the confirmation page carries the confirmation rows of the answers against the flattened sorted sections' questions, and the same buttons |
| `FormSession.InitialIsConsistent` | webapp/src/pages/applicationForm/components/ApplicationForm.js:169-178 | the initial state satisfies the session invariant and shows the spinner |
| `FormSession.ConsistentIsRenderable` | webapp/src/pages/applicationForm/components/ApplicationForm.js:250-262 | in a state satisfying the invariant, render never reaches a missing form definition |
| `FormSession.MountKeepsConsistent` | webapp/src/pages/applicationForm/components/ApplicationForm.js:195-213 | both mount callbacks preserve the invariant: the form definition is missing only while loading or in error, and there is one answer per id |
| `FormSession.FieldChangeKeepsConsistent` | webapp/src/pages/applicationForm/components/ApplicationForm.js:183-193 | a field change preserves the invariant; in particular one answer per id |
| `FormSession.NavigationKeepsConsistent` | webapp/src/pages/applicationForm/components/ApplicationForm.js:215-228 | next and previous change no field the invariant reads, so they preserve it; the step bound is kept separately by `OfferedNavigationStaysInRange` |
| `FormSession.SubmitKeepsConsistent` | webapp/src/pages/applicationForm/components/ApplicationForm.js:230-245 | starting a submit and applying its reply preserve the invariant |
| `FormSession.NavigationRoundTrip` | webapp/src/pages/applicationForm/components/ApplicationForm.js:215-228 | next adds 1 to the step and previous subtracts 1; nothing else changes; each undoes the other |
| `FormSession.ButtonsExclusive` | webapp/src/pages/applicationForm/components/ApplicationForm.js:285-293 | on every step, Next and Submit are never both offered, and Previous is offered exactly past step 1 |
| `FormSession.ButtonsMatchView` | webapp/src/pages/applicationForm/components/ApplicationForm.js:285-293 | within the steps, Next is offered exactly on a section step and Submit exactly on confirmation |
| `FormSession.OfferedNavigationStaysInRange` | webapp/src/pages/applicationForm/components/ApplicationForm.js:285-293 | pressing only the buttons offered keeps the step within `1..numSteps+1` |
| `FormSession.AdvancedTimesStep` | webapp/src/pages/applicationForm/components/ApplicationForm.js:215-219 | k presses of Next raise the step by k and change nothing else |
| `FormSession.ReachConfirmation` | webapp/src/pages/applicationForm/components/ApplicationForm.js:265-293 | from step 1, Next is offered on each section step, and `numSteps` presses reach step `numSteps+1`: confirmation, with Submit offered |
| `FormSession.MountCallbacksCommute` | webapp/src/pages/applicationForm/components/ApplicationForm.js:195-213 | the two mount callbacks write disjoint fields, so either arrival order gives the same state |
| `FormSession.PriorSubmissionView` | webapp/src/pages/applicationForm/components/ApplicationForm.js:195-212 | with a prior submitted response, both arrival orders end on the submitted page with its timestamp; prior response first: the spinner in between; form definition first: step 1 in between (the first sorted section, or confirmation when there are no sections) |
| `FormSession.MissingFormShowsError` | webapp/src/pages/applicationForm/components/ApplicationForm.js:196-203 | a null form definition leads to the error alert with the service's message |
| `FormSession.SubmitOutcome` | webapp/src/pages/applicationForm/components/ApplicationForm.js:230-245 | while the submit is out the spinner shows; after the reply loading is off, error iff the response id is null, message/submitted/timestamp come from the reply, and answers, step and form are unchanged |
| `FormSession.ConfirmationRowsMatch` | webapp/src/pages/applicationForm/components/ApplicationForm.js:129-150 | every confirmation row is an answer's value under the headline of a question with that answer's id |
| `FormSession.ConfirmationRowsSnoc` | webapp/src/pages/applicationForm/components/ApplicationForm.js:129-150 | for any answers, appending an answer appends one row under its first matching question's headline, or nothing when no question matches; so the rows are the matched answers in answer order |
| `FormSession.ConfirmationListsAllAnswers` | webapp/src/pages/applicationForm/components/ApplicationForm.js:129-150 | when every answer has a question, there is one row per answer, in order, under the first matching question's headline |
| `FormSession.ApplicationForm.constructor` | webapp/src/pages/applicationForm/components/ApplicationForm.js:166-181 | the initial state: step 1, loading, no error, not submitted, no answers |
| `FormSession.ApplicationForm.HandleFieldChange` | webapp/src/pages/applicationForm/components/ApplicationForm.js:183-193 | the answers become the upsert of the extracted id; exactly one answer for that id, with the new value; unique ids are kept; nothing else changes |
| `FormSession.ApplicationForm.OnFormLoaded` | webapp/src/pages/applicationForm/components/ApplicationForm.js:196-203 | stores the form definition and the message, sets error iff the form is missing, and stops loading |
| `FormSession.ApplicationForm.OnPriorResponse` | webapp/src/pages/applicationForm/components/ApplicationForm.js:204-212 | a present response sets the submitted flag and timestamp; an absent one changes nothing |
| `FormSession.ApplicationForm.NextStep` | webapp/src/pages/applicationForm/components/ApplicationForm.js:215-221 | the step rises by one and nothing else changes |
| `FormSession.ApplicationForm.PrevStep` | webapp/src/pages/applicationForm/components/ApplicationForm.js:223-228 | the step falls by one and nothing else changes |
| `FormSession.ApplicationForm.HandleSubmit` | webapp/src/pages/applicationForm/components/ApplicationForm.js:230-235 | sets loading and returns the request: the form definition's id, `finalize` set, and the current answers; nothing else changes |
| `FormSession.ApplicationForm.OnSubmitReply` | webapp/src/pages/applicationForm/components/ApplicationForm.js:235-244 | applies the reply: error iff the response id is null; message, submitted flag and timestamp from the reply; loading off |
| `RegistrationSummary.AnswerValue` | api/app/registration/response.py:23-33 | multi-choice with options: the label of the first option with the answer's value, or the raw value when none matches; file with a non-empty value: `Uploaded File`; otherwise the raw value |
| `RegistrationSummary.ConfirmedMessage` | api/app/registration/response.py:242-246 | the payment-pending note when unconfirmed; empty exactly when confirmed |
| `RegistrationSummary.PairsMembers` | api/app/registration/response.py:223-228 | a block is produced exactly for an answer and a question with equal ids |
| `RegistrationSummary.MatchesOfAppend` | api/app/registration/response.py:224-228 | within one answer, blocks follow question order |
| `RegistrationSummary.PairsAppend` | api/app/registration/response.py:223-228 | blocks follow answer order first |
| `RegistrationSummary.SummaryAnswerMajor` | api/app/registration/response.py:221-228 | the summary is the first answer's blocks followed by the summary of the remaining answers |
| `RegistrationSummary.SummaryEmptyIff` | api/app/registration/response.py:232-233 | the summary is empty exactly when no answer has a question with its id |
| `RegistrationSummary.BuildSummary` | api/app/registration/response.py:221-228 | the nested loop builds the summary: one heading/description/answer block per matching pair, in answer-then-question order |
| `RegistrationSummary.ConfirmationBody` | api/app/registration/response.py:213-236 | for the modelled records, whose text fields are strings and whose options carry `value` and `label`: no body (the `try` fails) exactly when answers are None, or questions are None while there are answers; otherwise greeting + payment note + blank line + summary, or the fallback text when nothing matched |

## Left out

- Network services: `getForEvent`, `getResponse` and `submit` are not modelled as calls. Their replies are parameters of the transitions that handle them.
- The order in which the two mount fetches arrive is not modelled as concurrency. Each callback is its own transition. `FormSession.MountCallbacksCommute` shows that the order does not change the final state, and `FormSession.PriorSubmissionView` shows that it does change what is shown in between.
- An `undefined` reply field is not modelled; `None` stands for null. The code tests `formSpec === null` and `response_id === null`, so an undefined `formSpec` would not set the error flag and render would fail at `formSpec.sections`, and an undefined `response_id` would count as a success. `FormSession.MissingFormShowsError` and `FormSession.SubmitOutcome` hold for null only.
- Two overlapping submits are not modelled. `handleSubmit` itself does not check `isLoading`, but it sets `isLoading`, and render then shows only the spinner until the reply arrives, so the form and its Submit button are hidden (`FormSession.SubmitOutcome`). Two submit replies arriving interleaved are not modelled.
- Rendering is left out: JSX, `FormTextBox`, `FormSelect`, `FormTextArea`, the spinner image, the thank-you text, `withRouter` and `window.scrollTo`. The widgets' source is not part of this model, so `FormSchema.ControlWritesOwnAnswer` assumes each widget reports the field id it was given.
- Progress bar width is left out. It is a floating-point percentage used only for display.
- `FormSession.SubmitKeepsConsistent` only considers the submit reply in a session that has a form definition. That holds whenever the reply is real, because `handleSubmit` read `formSpec.id` to send the request.
- Question ids in the webapp are the decimal text of the server's numbers. The loose `==` in Confirmation's `find`, between a question's numeric id and an answer's string id, is modelled as string equality. The `!=` in `handleFieldChange` compares two strings, both taken from `substring`. Number coercions such as `"01" == 1` are not modelled.
- A section whose `questions` is null is not modelled. The model's sections always hold a list, so the `props.questions &&` guard and `flatMap` over null do not arise.
- `order` values are integers. Fractional and NaN orders, which the `a.order - b.order` comparator would also accept, are not modelled.
- `DEFAULT_EVENT_ID`, `event.preventDefault()` and the `key` props are not modelled.
- The Flask handlers `get`, `post` and `put` of `RegistrationApi` are left out. They are database plumbing.
- E-mail delivery (`emailer.send_mail`, subject `Registration`), the greeting builder and logging are left out. The greeting is a parameter.
- `RegistrationSummary.AnswerValue`: answer values, question headlines and descriptions, and option labels are always strings, and every option carries both `'value'` and `'label'`. A None or non-string value in any of these fields, or an option without one of those keys, would raise a TypeError or KeyError inside the `try` and stop the e-mail. None of these cases is modelled, so `RegistrationSummary.ConfirmationBody` returns no body only for None answers or questions.
- The Alembic migration has no logic and is not modelled.
