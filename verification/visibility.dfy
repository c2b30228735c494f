/** The form viewer: the answers map, the conditional-visibility test
    `checkCondition`, the list of shown questions, and the required-answer
    check made before the preview. */
module Visibility {
  import opened Common
  import opened FormModel
  import opened Seqs

  /** The viewer's responses: field id to the text entered or option chosen. */
  type Answers = map<string, string>

  /** The answers key a rule looks up. A stored rule without a dependent
      field holds `null`, which a property lookup coerces to the text "null". */
  function DependentKey(l: ConditionalLogic): string {
    l.dependentFieldId.GetOr("null")
  }

  /** `responses` is a plain object: a key it does not hold that names an
      inherited property finds a built-in function, which is truthy and
      equals no text. */
  predicate FindsInherited(answers: Answers, key: string) {
    key !in answers && IsInheritedKey(key)
  }

  /** `responses[key]` is truthy: an own answer other than "", or an
      inherited property. */
  predicate Filled(answers: Answers, key: string) {
    (key in answers && answers[key] != "") || FindsInherited(answers, key)
  }

  /** `checkCondition(q.conditionalLogic)`. */
  function IsShown(logic: Option<ConditionalLogic>, answers: Answers): (r: bool)
    ensures logic.None? || !logic.value.enabled ==> r
    ensures logic.Some? && logic.value.enabled && !Filled(answers, DependentKey(logic.value)) ==> !r
    ensures r && logic.Some? && logic.value.enabled ==> logic.value.operator in {Some("is"), Some("isNot")}
  {
    match logic
    case None => true
    case Some(l) =>
      if !l.enabled then true
      else
        var key := DependentKey(l);
        if !Filled(answers, key) then false
        else if FindsInherited(answers, key) then l.operator == Some("isNot")
        else if l.operator == Some("is") then Some(answers[key]) == l.value
        else if l.operator == Some("isNot") then Some(answers[key]) != l.value
        else false
  }

  /** With an answered dependency, `is` shows the question exactly when the
      answer equals the rule's value and `isNot` exactly when it differs;
      unanswered, both hide it. A dependent id naming an inherited property
      the answers do not hold counts as answered with a value no rule
      matches, so `isNot` shows the question and `is` hides it. */
  lemma IsAndIsNotAreComplementary(l: ConditionalLogic, answers: Answers)
    requires l.enabled
    ensures
      var key := DependentKey(l);
      var isRule := Some(l.(operator := Some("is")));
      var isNotRule := Some(l.(operator := Some("isNot")));
      && (Filled(answers, key) ==> IsShown(isNotRule, answers) == !IsShown(isRule, answers))
      && (Filled(answers, key) && key in answers ==> (IsShown(isRule, answers) <==> Some(answers[key]) == l.value))
      && (FindsInherited(answers, key) ==> !IsShown(isRule, answers) && IsShown(isNotRule, answers))
      && (!Filled(answers, key) ==> !IsShown(isRule, answers) && !IsShown(isNotRule, answers))
  {
  }

  /** Any operator other than `is` and `isNot`, a stored `null` included,
      hides the question. */
  lemma UnknownOperatorHides(l: ConditionalLogic, answers: Answers)
    requires l.enabled && l.operator != Some("is") && l.operator != Some("isNot")
    ensures !IsShown(Some(l), answers)
  {
  }

  /** A rule submitted with an explicit `null` operator is stored with that
      `null`, and the question it guards stays hidden even when the dependent
      answer matches. */
  lemma NullOperatorHidesQuestion()
    ensures
      var l := LogicWithDefaults(LogicInput(Some(true), Some("q1"), Null, Some("Yes")));
      && l.operator.None?
      && !IsShown(Some(l), map["q1" := "Yes"])
  {
  }

  /** Visibility reads only the dependent field's answer. */
  lemma IsShownIsLocal(logic: Option<ConditionalLogic>, a1: Answers, a2: Answers)
    requires logic.Some? ==>
      var key := DependentKey(logic.value);
      (key in a1 <==> key in a2) && (key in a1 ==> a1[key] == a2[key])
    ensures IsShown(logic, a1) == IsShown(logic, a2)
  {
  }

  /** `handleInputChange(fieldId, value)`. */
  function SetAnswer(answers: Answers, fieldId: string, value: string): (r: Answers)
    ensures r.Keys == answers.Keys + {fieldId}
    ensures r[fieldId] == value
    ensures forall k :: k in answers && k != fieldId ==> r[k] == answers[k]
  {
    answers[fieldId := value]
  }

  /** Answers to two different fields may be entered in either order. */
  lemma SetAnswersCommute(answers: Answers, f1: string, v1: string, f2: string, v2: string)
    requires f1 != f2
    ensures SetAnswer(SetAnswer(answers, f1, v1), f2, v2) == SetAnswer(SetAnswer(answers, f2, v2), f1, v1)
  {
  }

  /** Entering an answer leaves the visibility of every question that does
      not depend on that field as it was. */
  lemma SetAnswerKeepsUnrelatedVisibility(logic: Option<ConditionalLogic>, answers: Answers, fieldId: string, value: string)
    requires logic.Some? ==> DependentKey(logic.value) != fieldId
    ensures IsShown(logic, SetAnswer(answers, fieldId, value)) == IsShown(logic, answers)
  {
    IsShownIsLocal(logic, SetAnswer(answers, fieldId, value), answers);
  }

  /** The set of field ids of `qs`. */
  function FieldIds(qs: seq<Question>): set<string> {
    set i | 0 <= i < |qs| :: qs[i].fieldId
  }

  /** The responses a form starts with: "" for every question. */
  function InitialResponses(qs: seq<Question>): (r: Answers)
    ensures r.Keys == FieldIds(qs)
    ensures forall i :: 0 <= i < |qs| ==> qs[i].fieldId in r && !Filled(r, qs[i].fieldId)
  {
    map f | f in FieldIds(qs) :: ""
  }

  /** The questions the viewer renders, in form order. */
  function VisibleQuestions(qs: seq<Question>, answers: Answers): (r: seq<Question>)
    ensures forall i :: 0 <= i < |r| ==> r[i] in qs && IsShown(r[i].conditionalLogic, answers)
    ensures forall i :: 0 <= i < |qs| && IsShown(qs[i].conditionalLogic, answers) ==> qs[i] in r
    ensures Subsequence(r, qs)
    ensures forall q :: multiset(r)[q] == if IsShown(q.conditionalLogic, answers) then multiset(qs)[q] else 0
  {
    var shown := (q: Question) => IsShown(q.conditionalLogic, answers);
    FilterIsSubsequence(shown, qs);
    FilterCounts(shown, qs);
    Filter(shown, qs)
  }

  /** On a freshly loaded form every question with an enabled rule is hidden,
      since no dependency is answered yet; the one exception is an `isNot`
      rule whose dependent id is no question's and names an inherited
      property. */
  lemma FreshFormShowsOnlyUnconditional(qs: seq<Question>, i: nat)
    requires i < |qs|
    ensures
      var logic := qs[i].conditionalLogic;
      var a := InitialResponses(qs);
      IsShown(logic, a) <==>
        || logic.None?
        || !logic.value.enabled
        || (&& DependentKey(logic.value) !in FieldIds(qs)
            && IsInheritedKey(DependentKey(logic.value))
            && logic.value.operator == Some("isNot"))
  {
  }

  /** A question the preview check stops at. */
  predicate RequiredButEmpty(q: Question, answers: Answers) {
    q.isRequired && !Filled(answers, q.fieldId)
  }

  /** The preview is refused: some question, shown or not, is required and empty. */
  predicate PreviewBlocked(qs: seq<Question>, answers: Answers) {
    exists i :: 0 <= i < |qs| && RequiredButEmpty(qs[i], answers)
  }

  /** `handlePreview`: the first required question without an answer (the
      one named in the alert), or `None` when the preview may open. */
  method FirstMissingRequired(qs: seq<Question>, answers: Answers) returns (missing: Option<nat>)
    ensures missing.None? <==> !PreviewBlocked(qs, answers)
    ensures missing.Some? ==>
      && missing.value < |qs|
      && RequiredButEmpty(qs[missing.value], answers)
      && forall j :: 0 <= j < missing.value ==> !RequiredButEmpty(qs[j], answers)
  {
    var i := 0;
    while i < |qs|
      invariant 0 <= i <= |qs|
      invariant forall j :: 0 <= j < i ==> !RequiredButEmpty(qs[j], answers)
    {
      if qs[i].isRequired && !Filled(answers, qs[i].fieldId) {
        return Some(i);
      }
      i := i + 1;
    }
    return None;
  }

  /** On a freshly loaded form the preview is refused exactly when some
      question is required. */
  lemma FreshFormPreviewBlockedIffRequired(qs: seq<Question>)
    ensures PreviewBlocked(qs, InitialResponses(qs)) <==> exists i :: 0 <= i < |qs| && qs[i].isRequired
  {
  }

  /** The preview check also covers hidden questions: a required question
      hidden by its rule still blocks the preview while it is empty. */
  lemma HiddenRequiredQuestionBlocksPreview()
    ensures
      var q1 := Question("q1", "Attending?", "singleSelect", [Choice("c1", "Yes"), Choice("c2", "No")], None, false);
      var q2 := Question("q2", "Diet", "singleLineText", [], Some(ConditionalLogic(true, Some("q1"), Some("is"), Some("Yes"))), true);
      var a := map["q1" := "No", "q2" := ""];
      && !IsShown(q2.conditionalLogic, a)
      && VisibleQuestions([q1, q2], a) == [q1]
      && PreviewBlocked([q1, q2], a)
  {
    var q1 := Question("q1", "Attending?", "singleSelect", [Choice("c1", "Yes"), Choice("c2", "No")], None, false);
    var q2 := Question("q2", "Diet", "singleLineText", [], Some(ConditionalLogic(true, Some("q1"), Some("is"), Some("Yes"))), true);
    var a := map["q1" := "No", "q2" := ""];
    var shown := (q: Question) => IsShown(q.conditionalLogic, a);
    assert [q1, q2][1..] == [q2];
    assert Filter(shown, [q2]) == [];
    assert RequiredButEmpty([q1, q2][1], a);
  }

  /** Scenario: a rule posted straight to the server with the dependent id
      `toString` and `isNot "Yes"` shows its question whatever is answered
      to the form's own fields, since the lookup finds the inherited
      function. */
  lemma InheritedDependencyScenario(answers: Answers)
    requires "toString" !in answers
    ensures IsShown(Some(ConditionalLogic(true, Some("toString"), Some("isNot"), Some("Yes"))), answers)
    ensures !IsShown(Some(ConditionalLogic(true, Some("toString"), Some("is"), Some("Yes"))), answers)
  {
  }

  /** Scenario: `q2` shown only when `q1` is "Yes". */
  lemma IsRuleScenario()
    ensures
      var rule := Some(ConditionalLogic(true, Some("q1"), Some("is"), Some("Yes")));
      && IsShown(rule, map["q1" := "Yes"])
      && !IsShown(rule, map["q1" := "No"])
      && !IsShown(rule, map[])
  {
  }

  /** Scenario: `q2` shown only when `q1` is answered and not "Yes"; an
      unanswered `q1` hides it. */
  lemma IsNotRuleScenario()
    ensures
      var rule := Some(ConditionalLogic(true, Some("q1"), Some("isNot"), Some("Yes")));
      && IsShown(rule, map["q1" := "No"])
      && !IsShown(rule, map["q1" := "Yes"])
      && !IsShown(rule, map[])
      && !IsShown(rule, map["q1" := ""])
  {
  }
}
