/** The stored form document: Form -> Question -> ConditionalLogic, with the
    defaults and required fields the persistence schema declares. A document
    is built from a partially filled input record (`...Input`). A schema
    default replaces only an absent key, so where the default is not `null`
    the input tells an absent key from an explicit `null` (`Json`); elsewhere
    `None` is a key that is absent or `null`. */
module FormModel {
  import opened Common

  /** A JSON key of a request body: absent, explicitly `null`, or given. */
  datatype Json<+T> = Absent | Null | Given(value: T)

  /** One option of a select-typed question, `{id, name}`. */
  datatype Choice = Choice(id: string, name: string)

  /** A visibility rule: show the question only when the answer to
      `dependentFieldId` is (or is not) `value`. A stored `null` is `None`. */
  datatype ConditionalLogic = ConditionalLogic(
    enabled: bool,
    dependentFieldId: Option<string>,
    operator: Option<string>,
    value: Option<string>)

  datatype Question = Question(
    fieldId: string,
    labelText: string,
    fieldType: string,
    options: seq<Choice>,
    conditionalLogic: Option<ConditionalLogic>,
    isRequired: bool)

  datatype Form = Form(
    formName: string,
    creatorId: string,
    airtableBaseId: string,
    airtableTableId: string,
    questions: seq<Question>)

  /** A conditional-logic sub-document as submitted, before defaults apply. */
  datatype LogicInput = LogicInput(
    enabled: Option<bool>,
    dependentFieldId: Option<string>,
    operator: Json<string>,
    value: Option<string>)

  /** A question sub-document as submitted, before defaults and validation. */
  datatype QuestionInput = QuestionInput(
    fieldId: Option<string>,
    labelText: Option<string>,
    fieldType: Option<string>,
    options: seq<Choice>,
    conditionalLogic: Option<LogicInput>,
    isRequired: Option<bool>)

  /** The schema defaults of a conditional rule. */
  const DefaultOperator: string := "is"
  const DefaultLogic: ConditionalLogic := ConditionalLogic(false, None, Some(DefaultOperator), None)

  /** A `required: true` string path: present and not the empty string. */
  predicate RequiredString(s: Option<string>) {
    Truthy(s)
  }

  predicate ValidQuestion(q: Question) {
    q.fieldId != "" && q.labelText != "" && q.fieldType != ""
  }

  predicate ValidForm(f: Form) {
    && f.formName != "" && f.creatorId != "" && f.airtableBaseId != "" && f.airtableTableId != ""
    && forall i :: 0 <= i < |f.questions| ==> ValidQuestion(f.questions[i])
  }

  /** Fills the absent keys of a rule with the schema defaults. An explicit
      `null` operator is not absent: it is stored as `null`. */
  function LogicWithDefaults(l: LogicInput): (r: ConditionalLogic)
    ensures l.enabled.None? ==> !r.enabled
    ensures l.operator.Absent? ==> r.operator == Some(DefaultOperator)
    ensures l.operator.Null? ==> r.operator.None?
    ensures l.dependentFieldId.None? ==> r.dependentFieldId.None?
    ensures l.value.None? ==> r.value.None?
    ensures l.enabled.Some? ==> r.enabled == l.enabled.value
    ensures l.operator.Given? ==> r.operator == Some(l.operator.value)
    ensures r.dependentFieldId == l.dependentFieldId && r.value == l.value
  {
    var operator := match l.operator
      case Absent => Some(DefaultOperator)
      case Null => None
      case Given(o) => Some(o);
    ConditionalLogic(l.enabled.GetOr(false), l.dependentFieldId, operator, l.value)
  }

  /** The input record a complete rule serialises to. */
  function LogicToInput(l: ConditionalLogic): LogicInput {
    LogicInput(Some(l.enabled), l.dependentFieldId, if l.operator.Some? then Given(l.operator.value) else Null, l.value)
  }

  /** The input record a complete question serialises to. */
  function QuestionToInput(q: Question): QuestionInput {
    QuestionInput(
      Some(q.fieldId), Some(q.labelText), Some(q.fieldType), q.options,
      if q.conditionalLogic.Some? then Some(LogicToInput(q.conditionalLogic.value)) else None,
      Some(q.isRequired))
  }

  /** Builds a question document: applies the defaults, then the required checks. */
  function BuildQuestion(qi: QuestionInput): (r: Option<Question>)
    ensures r.Some? <==> RequiredString(qi.fieldId) && RequiredString(qi.labelText) && RequiredString(qi.fieldType)
    ensures r.Some? ==> ValidQuestion(r.value)
    ensures r.Some? ==> r.value.fieldId == qi.fieldId.value && r.value.labelText == qi.labelText.value
    ensures r.Some? ==> r.value.fieldType == qi.fieldType.value && r.value.options == qi.options
    ensures r.Some? && qi.isRequired.None? ==> !r.value.isRequired
    ensures r.Some? && qi.isRequired.Some? ==> r.value.isRequired == qi.isRequired.value
    ensures r.Some? && qi.conditionalLogic.Some? ==>
      r.value.conditionalLogic == Some(LogicWithDefaults(qi.conditionalLogic.value))
    ensures r.Some? && qi.conditionalLogic.None? ==> r.value.conditionalLogic.None?
  {
    if RequiredString(qi.fieldId) && RequiredString(qi.labelText) && RequiredString(qi.fieldType) then
      var logic := if qi.conditionalLogic.Some? then Some(LogicWithDefaults(qi.conditionalLogic.value)) else None;
      Some(Question(qi.fieldId.value, qi.labelText.value, qi.fieldType.value, qi.options, logic, qi.isRequired.GetOr(false)))
    else
      None
  }

  /** Builds every question of a form; fails if any one fails. */
  function BuildQuestions(qs: seq<QuestionInput>): (r: Option<seq<Question>>)
    ensures r.Some? <==> forall i :: 0 <= i < |qs| ==> BuildQuestion(qs[i]).Some?
    ensures r.Some? ==> |r.value| == |qs|
    ensures r.Some? ==> forall i :: 0 <= i < |qs| ==> r.value[i] == BuildQuestion(qs[i]).value
  {
    if qs == [] then Some([])
    else
      var head := BuildQuestion(qs[0]);
      var tail := BuildQuestions(qs[1..]);
      if head.Some? && tail.Some? then Some([head.value] + tail.value)
      else
        assert head.None? ==> BuildQuestion(qs[0]).None?;
        None
  }

  /** An absent rule object becomes the schema-default rule. */
  lemma EmptyLogicIsDefault()
    ensures LogicWithDefaults(LogicInput(None, None, Absent, None)) == DefaultLogic
  {
  }

  /** Serialising a rule and applying the defaults gives the rule back. */
  lemma LogicRoundTrip(l: ConditionalLogic)
    ensures LogicWithDefaults(LogicToInput(l)) == l
  {
  }

  /** Serialising a valid question and rebuilding its document gives it back;
      an invalid one is rejected. */
  lemma QuestionRoundTrip(q: Question)
    ensures BuildQuestion(QuestionToInput(q)) == (if ValidQuestion(q) then Some(q) else None)
  {
    if q.conditionalLogic.Some? {
      LogicRoundTrip(q.conditionalLogic.value);
    }
  }
}
