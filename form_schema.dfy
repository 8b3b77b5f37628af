/**
 * The form definition the application form renders (formSpec, its sections
 * and questions), the order in which it is shown, and FieldEditor.formControl,
 * the dispatch from a question's type tag to its input control.
 */
module FormSchema {
  import opened Wrappers
  import opened Sequences
  import AnswerStore

  /** One option of a multiple-choice question; `caption` is the option's label. */
  datatype Choice = Choice(value: string, caption: string)

  /** A question; `id` is the decimal text of the server's numeric id, `qtype` its raw type tag. */
  datatype Question = Question(
    id: string,
    qtype: string,
    headline: string,
    description: string,
    placeholder: string,
    options: Option<seq<Choice>>,
    order: int)

  datatype Section = Section(name: string, description: string, order: int, questions: seq<Question>)

  /** The form definition; `sections` may be absent. */
  datatype FormSpec = FormSpec(id: int, sections: Option<seq<Section>>)

  // The type tags formControl recognises; long text has two spellings.
  const ShortTextTag := "short-text"
  const SingleChoiceTag := "single-choice"
  const LongTextTags := ["long-text", "long_text"]
  const MultiChoiceTag := "multi-choice"
  const FileTag := "file"

  /** Every tag that has a control. */
  function KnownTags(): seq<string> {
    [ShortTextTag, SingleChoiceTag, LongTextTags[0], LongTextTags[1], MultiChoiceTag, FileTag]
  }

  function SectionOrder(s: Section): int { s.order }

  function QuestionOrder(q: Question): int { q.order }

  /** `formSpec.sections && formSpec.sections.slice().sort(byOrder)`: a sorted copy, or absent. */
  function SortedSections(spec: FormSpec): (r: Option<seq<Section>>)
    ensures r.Some? <==> spec.sections.Some?
    ensures r.Some? ==> |r.value| == |spec.sections.value|
    ensures r.Some? ==> SortedBy(r.value, SectionOrder) && multiset(r.value) == multiset(spec.sections.value)
  {
    match spec.sections
    case None => None
    case Some(sections) => Some(SortBy(sections, SectionOrder))
  }

  /** Section's question list: a copy of its questions sorted by `order`. */
  function SortedQuestions(section: Section): (r: seq<Question>)
    ensures SortedBy(r, QuestionOrder) && multiset(r) == multiset(section.questions)
  {
    SortBy(section.questions, QuestionOrder)
  }

  /** Sorting leaves the relative order of equal-`order` sections as the server sent them. */
  lemma SortedSectionsStable(spec: FormSpec, k: int)
    requires spec.sections.Some?
    ensures WithKey(SortedSections(spec).value, SectionOrder, k) == WithKey(spec.sections.value, SectionOrder, k)
  {
    SortByStable(spec.sections.value, SectionOrder, k);
  }

  /** The same for the questions of a section. */
  lemma SortedQuestionsStable(section: Section, k: int)
    ensures WithKey(SortedQuestions(section), QuestionOrder, k) == WithKey(section.questions, QuestionOrder, k)
  {
    SortByStable(section.questions, QuestionOrder, k);
  }

  /** `sections.flatMap(section => section.questions)`: every section's questions, as stored, in section order. */
  function AllQuestions(sections: seq<Section>): (r: seq<Question>)
    ensures forall q :: q in r <==> exists s :: s in sections && q in s.questions
    ensures |sections| == 1 ==> r == sections[0].questions
  {
    if sections == [] then []
    else
      var rest := AllQuestions(sections[1..]);
      assert forall s :: s in sections <==> s == sections[0] || s in sections[1..];
      sections[0].questions + rest
  }

  /** Flattening distributes over concatenation: the sections' lists are joined in section order, duplicates kept. */
  lemma {:induction false} AllQuestionsAppend(a: seq<Section>, b: seq<Section>)
    ensures AllQuestions(a + b) == AllQuestions(a) + AllQuestions(b)
  {
    if a == [] {
      assert a + b == b;
    } else {
      assert (a + b)[0] == a[0] && (a + b)[1..] == a[1..] + b;
      AllQuestionsAppend(a[1..], b);
    }
  }

  /** `questions.find(q => q.id == id)`: the first question with that id, if any. */
  function FindQuestion(questions: seq<Question>, id: string): (r: Option<Question>)
    ensures r.None? <==> forall i | 0 <= i < |questions| :: questions[i].id != id
    ensures r.Some? ==> exists i | 0 <= i < |questions| ::
      questions[i] == r.value && r.value.id == id && forall j | 0 <= j < i :: questions[j].id != id
  {
    var i := FirstIndex(questions, (q: Question) => q.id == id);
    if i < 0 then None else Some(questions[i])
  }

  /** A question with the id at index `i`, and none before it, is the one `find` returns. */
  lemma FindQuestionAt(questions: seq<Question>, id: string, i: int)
    requires 0 <= i < |questions| && questions[i].id == id
    requires forall j | 0 <= j < i :: questions[j].id != id
    ensures FindQuestion(questions, id) == Some(questions[i])
  {
    var r := FindQuestion(questions, id);
    var k :| 0 <= k < |questions| && questions[k] == r.value && r.value.id == id &&
      forall j | 0 <= j < k :: questions[j].id != id;
    assert k == i;
  }

  /** `find` over a joined list: a match in the first part wins; otherwise the second part is searched. */
  lemma FindQuestionAppend(xs: seq<Question>, ys: seq<Question>, id: string)
    ensures FindQuestion(xs + ys, id) ==
      if FindQuestion(xs, id).Some? then FindQuestion(xs, id) else FindQuestion(ys, id)
  {
    var inXs := FindQuestion(xs, id);
    var inYs := FindQuestion(ys, id);
    if inXs.Some? {
      var i :| 0 <= i < |xs| && xs[i] == inXs.value && inXs.value.id == id &&
        forall j | 0 <= j < i :: xs[j].id != id;
      FindQuestionAt(xs + ys, id, i);
    } else if inYs.Some? {
      var i :| 0 <= i < |ys| && ys[i] == inYs.value && inYs.value.id == id &&
        forall j | 0 <= j < i :: ys[j].id != id;
      assert (xs + ys)[|xs| + i] == ys[i];
      forall j | 0 <= j < |xs| + i
        ensures (xs + ys)[j].id != id
      {
        if j >= |xs| {
          assert (xs + ys)[j] == ys[j - |xs|];
        }
      }
      FindQuestionAt(xs + ys, id, |xs| + i);
    } else {
      forall j | 0 <= j < |xs + ys|
        ensures (xs + ys)[j].id != id
      {
        if j >= |xs| {
          assert (xs + ys)[j] == ys[j - |xs|];
        }
      }
    }
  }

  /** Which change callback a control is wired to. */
  datatype Handler =
    | OnEvent     // handleChange: forwards (event.target.id, event.target.value)
    | OnDropdown  // handleChangeDropdown: forwards (name, dropdown.value)

  /** The input widget a control renders. */
  datatype Widget =
    | TextBox(inputType: string)
    | TextArea(rows: nat)
    | Select(options: Option<seq<Choice>>)

  /** What formControl renders for a question: an input wired to a change callback, or a warning. */
  datatype Control =
    | Input(fieldId: string, widget: Widget, caption: string, placeholder: string, handler: Handler)
    | Warning(message: string)

  /** FieldEditor.formControl: the switch on the question's type tag. */
  function FormControl(q: Question): (c: Control)
    ensures c.Warning? <==> q.qtype !in KnownTags()
    ensures c.Warning? ==> c.message == "WARNING: No control found for type " + q.qtype + "!"
    ensures c.Input? ==> c.fieldId == AnswerStore.FieldId(q.id)
    ensures c.Input? ==> c.caption == q.description && c.placeholder == q.placeholder
    ensures c.Input? ==> (c.handler == OnDropdown <==> q.qtype == MultiChoiceTag)
    ensures q.qtype in LongTextTags ==> c == Input(AnswerStore.FieldId(q.id), TextArea(5), q.description, q.placeholder, OnEvent)
    ensures q.qtype == MultiChoiceTag ==> c.Input? && c.widget == Select(q.options)
    ensures q.qtype == ShortTextTag ==> c.Input? && c.widget == TextBox("text")
    ensures q.qtype == SingleChoiceTag ==> c.Input? && c.widget == TextBox("checkbox")
    ensures q.qtype == FileTag ==> c.Input? && c.widget == TextBox("file")
  {
    var id := AnswerStore.FieldId(q.id);
    if q.qtype == ShortTextTag then Input(id, TextBox("text"), q.description, q.placeholder, OnEvent)
    else if q.qtype == SingleChoiceTag then Input(id, TextBox("checkbox"), q.description, q.placeholder, OnEvent)
    else if q.qtype == LongTextTags[0] || q.qtype == LongTextTags[1] then
      Input(id, TextArea(5), q.description, q.placeholder, OnEvent)
    else if q.qtype == MultiChoiceTag then Input(id, Select(q.options), q.description, q.placeholder, OnDropdown)
    else if q.qtype == FileTag then Input(id, TextBox("file"), q.description, q.placeholder, OnEvent)
    else Warning("WARNING: No control found for type " + q.qtype + "!")
  }

  /**
   * What a control reports when its widget changes: the (field id, value)
   * pair handed to the form's change callback; a warning has no callback.
   */
  function Reported(c: Control, value: string): (r: Option<(string, string)>)
    ensures r.Some? <==> c.Input?
    ensures r.Some? ==> r.value == (c.fieldId, value)
  {
    match c
    case Input(fieldId, _, _, _, _) => Some((fieldId, value))
    case Warning(_) => None
  }

  /**
   * A change in the control of a question whose id has no '_' lands in the
   * answer store under that question's id; an unrecognised type reports nothing.
   */
  lemma ControlWritesOwnAnswer(q: Question, answers: seq<AnswerStore.Answer>, value: string)
    requires '_' !in q.id
    ensures q.qtype !in KnownTags() <==> Reported(FormControl(q), value).None?
    ensures q.qtype in KnownTags() ==>
      var (fieldId, v) := Reported(FormControl(q), value).value;
      var updated := AnswerStore.Upsert(answers, AnswerStore.ExtractId(fieldId), v);
      AnswerStore.Lookup(updated, q.id) == Some(value) && AnswerStore.Count(updated, q.id) == 1
  {
    if q.qtype in KnownTags() {
      AnswerStore.ExtractIdOfFieldId(q.id);
      AnswerStore.UpsertLookup(answers, q.id, value, q.id);
      AnswerStore.UpsertCount(answers, q.id, value, q.id);
    }
  }
}
