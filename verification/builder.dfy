/** The form builder: choosing a table, turning its fields into questions,
    editing the questions, the conditional-logic dialog, and the checks made
    before a form is sent to the server. */
module Builder {
  import opened Common
  import opened FormModel
  import opened JsString
  import opened Seqs
  import Api
  import Visibility

  /** The field types a question may have. */
  const SupportedFieldTypes: seq<string> :=
    ["singleLineText", "multilineText", "singleSelect", "multipleSelects", "multipleAttachments"]

  /** The only type a rule may depend on. */
  const SingleSelect: string := "singleSelect"

  /** A field of an Airtable table; `choices` are the options of a select field. */
  datatype Field = Field(id: string, name: string, fieldType: string, choices: seq<Choice>)

  datatype Table = Table(id: string, name: string, fields: seq<Field>)

  /** The builder's state that the modelled handlers read and write. */
  datatype BuilderState = BuilderState(
    selectedBase: string,
    tables: seq<Table>,
    selectedTable: string,
    fields: seq<Field>,
    formName: string,
    questions: seq<Question>)

  /** Some question of `qs` is built from the field `fieldId`. */
  predicate HasQuestion(qs: seq<Question>, fieldId: string) {
    exists i :: 0 <= i < |qs| && qs[i].fieldId == fieldId
  }

  /** No two questions come from the same field. */
  predicate UniqueFieldIds(qs: seq<Question>) {
    forall i, j :: 0 <= i < j < |qs| ==> qs[i].fieldId != qs[j].fieldId
  }

  // ---------------------------------------------------------------------
  // Choosing a table
  // ---------------------------------------------------------------------

  predicate IsSupported(f: Field) {
    f.fieldType in SupportedFieldTypes
  }

  /** `tables.find(t => t.id === id)`: the first table with that id. */
  function FindTable(tables: seq<Table>, id: string): (r: Option<Table>)
    ensures r.None? <==> forall i :: 0 <= i < |tables| ==> tables[i].id != id
    ensures r.Some? ==> r.value in tables && r.value.id == id
    ensures r.Some? ==> exists k :: 0 <= k < |tables| && tables[k] == r.value && forall j :: 0 <= j < k ==> tables[j].id != id
  {
    if tables == [] then None
    else if tables[0].id == id then Some(tables[0])
    else
      assert forall i :: 1 <= i < |tables| ==> tables[i] == tables[1..][i - 1];
      FindTable(tables[1..], id)
  }

  /** The handler dereferences the table it did not find. */
  datatype SelectTableError = TableNotFound

  /** `handleTableSelect`: keeps the chosen table's fields of a supported
      type, in table order, and clears the questions. */
  function SelectTable(b: BuilderState, id: string): (r: Result<BuilderState, SelectTableError>)
    ensures r.Failure? <==> id != "" && FindTable(b.tables, id).None?
    ensures r.Success? ==> r.value.questions == [] && r.value.selectedTable == id
    ensures r.Success? ==> r.value == b.(selectedTable := id, fields := r.value.fields, questions := [])
    ensures r.Success? && id == "" ==> r.value.fields == []
    ensures r.Success? && id != "" ==>
      var t := FindTable(b.tables, id).value;
      && Subsequence(r.value.fields, t.fields)
      && (forall i :: 0 <= i < |r.value.fields| ==> IsSupported(r.value.fields[i]))
      && (forall i :: 0 <= i < |t.fields| && IsSupported(t.fields[i]) ==> t.fields[i] in r.value.fields)
      && (forall x :: multiset(r.value.fields)[x] == if IsSupported(x) then multiset(t.fields)[x] else 0)
  {
    if id == "" then Success(b.(selectedTable := id, fields := [], questions := []))
    else
      match FindTable(b.tables, id)
      case None => Failure(TableNotFound)
      case Some(t) =>
        FilterIsSubsequence(IsSupported, t.fields);
        FilterCounts(IsSupported, t.fields);
        Success(b.(selectedTable := id, fields := Filter(IsSupported, t.fields), questions := []))
  }

  // ---------------------------------------------------------------------
  // Adding, removing and editing questions
  // ---------------------------------------------------------------------

  /** The question a newly ticked field becomes; only field types containing
      "Select" carry their choices. */
  function NewQuestion(f: Field): (q: Question)
    ensures q.fieldId == f.id && q.labelText == f.name && q.fieldType == f.fieldType
    ensures !q.isRequired && q.conditionalLogic == Some(DefaultLogic)
    ensures q.options != [] ==> Includes(f.fieldType, "Select")
  {
    Question(f.id, f.name, f.fieldType, if Includes(f.fieldType, "Select") then f.choices else [],
             Some(LogicWithDefaults(LogicInput(Some(false), None, Absent, None))), false)
  }

  /** The two select types. */
  predicate IsSelectType(t: string) {
    t == "singleSelect" || t == "multipleSelects"
  }

  /** Of the supported types exactly the two select types keep their choices. */
  lemma SelectTypesKeepChoices(f: Field)
    requires IsSupported(f)
    ensures NewQuestion(f).options == (if IsSelectType(f.fieldType) then f.choices else [])
  {
    if IsSelectType(f.fieldType) {
      SelectTypesIncludeSelect(f.fieldType);
    } else {
      TextTypesExcludeSelect(f.fieldType);
    }
  }

  lemma SelectTypesIncludeSelect(t: string)
    requires IsSelectType(t)
    ensures Includes(t, "Select")
  {
    if t == "singleSelect" {
      assert OccursAt(t, "Select", 6);
    } else {
      assert OccursAt(t, "Select", 8);
    }
  }

  lemma TextTypesExcludeSelect(t: string)
    requires t in SupportedFieldTypes && !IsSelectType(t)
    ensures !Includes(t, "Select")
  {
    NoCapitalSNoSelect(t);
  }

  /** A text without a capital 'S' cannot contain "Select". */
  lemma NoCapitalSNoSelect(s: string)
    requires forall i :: 0 <= i < |s| ==> s[i] != 'S'
    ensures !Includes(s, "Select")
  {
    forall i: nat | i + 6 <= |s| ensures !OccursAt(s, "Select", i) {
      assert s[i..i + 6][0] == s[i];
    }
  }

  /** The filter test that drops the questions of one field. */
  function NotFrom(fieldId: string): Question -> bool {
    (q: Question) => q.fieldId != fieldId
  }

  /** `handleFieldToggle(field)`: removes the field's question if there is
      one, otherwise appends a new question for it. */
  function ToggleField(qs: seq<Question>, f: Field): (r: seq<Question>)
    ensures HasQuestion(r, f.id) <==> !HasQuestion(qs, f.id)
    ensures !HasQuestion(qs, f.id) ==> r == qs + [NewQuestion(f)]
    ensures HasQuestion(qs, f.id) ==>
      && Subsequence(r, qs)
      && (forall i :: 0 <= i < |qs| && qs[i].fieldId != f.id ==> qs[i] in r)
      && (forall x :: multiset(r)[x] == if x.fieldId != f.id then multiset(qs)[x] else 0)
  {
    if HasQuestion(qs, f.id) then
      FilterIsSubsequence(NotFrom(f.id), qs);
      FilterCounts(NotFrom(f.id), qs);
      Filter(NotFrom(f.id), qs)
    else
      var r := qs + [NewQuestion(f)];
      assert r[|qs|].fieldId == f.id;
      r
  }

  /** Ticking a field and unticking it again restores the question list. */
  lemma ToggleTwiceRestores(qs: seq<Question>, f: Field)
    requires !HasQuestion(qs, f.id)
    ensures ToggleField(ToggleField(qs, f), f) == qs
  {
    FilterSnoc(NotFrom(f.id), qs, NewQuestion(f));
    FilterKeepsAll(NotFrom(f.id), qs);
  }

  /** Toggling keeps the questions' field ids distinct. */
  lemma ToggleKeepsUniqueFieldIds(qs: seq<Question>, f: Field)
    requires UniqueFieldIds(qs)
    ensures UniqueFieldIds(ToggleField(qs, f))
  {
    if HasQuestion(qs, f.id) {
      FilterIsSubsequence(NotFrom(f.id), qs);
      SubsequenceKeepsUnique(Filter(NotFrom(f.id), qs), qs);
    }
  }

  lemma {:induction false} SubsequenceKeepsUnique(r: seq<Question>, s: seq<Question>)
    requires Subsequence(r, s) && UniqueFieldIds(s)
    ensures UniqueFieldIds(r)
    decreases |s|
  {
    if r != [] {
      assert UniqueFieldIds(s[1..]) by {
        forall i, j | 0 <= i < j < |s| - 1 ensures s[1..][i].fieldId != s[1..][j].fieldId {
          assert s[1..][i] == s[i + 1] && s[1..][j] == s[j + 1];
        }
      }
      if r[0] == s[0] && Subsequence(r[1..], s[1..]) {
        SubsequenceKeepsUnique(r[1..], s[1..]);
        SubsequenceElements(r[1..], s[1..]);
        forall j | 0 < j < |r| ensures r[0].fieldId != r[j].fieldId {
          assert r[j] == r[1..][j - 1];
          var k :| 0 <= k < |s[1..]| && s[1..][k] == r[j];
          assert s[k + 1] == r[j];
        }
      } else {
        SubsequenceKeepsUnique(r, s[1..]);
      }
    }
  }

  lemma {:induction false} SubsequenceElements<T>(r: seq<T>, s: seq<T>)
    requires Subsequence(r, s)
    ensures forall i :: 0 <= i < |r| ==> exists k :: 0 <= k < |s| && s[k] == r[i]
    decreases |s|
  {
    if r != [] {
      if r[0] == s[0] && Subsequence(r[1..], s[1..]) {
        SubsequenceElements(r[1..], s[1..]);
        forall i | 1 <= i < |r| ensures exists k :: 0 <= k < |s| && s[k] == r[i] {
          assert r[i] == r[1..][i - 1];
          var k :| 0 <= k < |s[1..]| && s[1..][k] == r[i];
          assert s[k + 1] == r[i];
        }
        assert s[0] == r[0];
      } else {
        SubsequenceElements(r, s[1..]);
        forall i | 0 <= i < |r| ensures exists k :: 0 <= k < |s| && s[k] == r[i] {
          var k :| 0 <= k < |s[1..]| && s[1..][k] == r[i];
          assert s[k + 1] == r[i];
        }
      }
    }
  }

  /** `updateQuestionLabel(fieldId, newLabel)`. */
  function UpdateQuestionLabel(qs: seq<Question>, fieldId: string, newLabel: string): (r: seq<Question>)
    ensures |r| == |qs|
    ensures forall i :: 0 <= i < |qs| ==>
      r[i] == if qs[i].fieldId == fieldId then qs[i].(labelText := newLabel) else qs[i]
  {
    seq(|qs|, i requires 0 <= i < |qs| => if qs[i].fieldId == fieldId then qs[i].(labelText := newLabel) else qs[i])
  }

  /** `updateQuestionLogic(fieldId, logic)`. */
  function UpdateQuestionLogic(qs: seq<Question>, fieldId: string, logic: ConditionalLogic): (r: seq<Question>)
    ensures |r| == |qs|
    ensures forall i :: 0 <= i < |qs| ==>
      r[i] == if qs[i].fieldId == fieldId then qs[i].(conditionalLogic := Some(logic)) else qs[i]
  {
    seq(|qs|, i requires 0 <= i < |qs| => if qs[i].fieldId == fieldId then qs[i].(conditionalLogic := Some(logic)) else qs[i])
  }

  /** `toggleQuestionRequired(fieldId)`. */
  function ToggleQuestionRequired(qs: seq<Question>, fieldId: string): (r: seq<Question>)
    ensures |r| == |qs|
    ensures forall i :: 0 <= i < |qs| ==>
      r[i] == if qs[i].fieldId == fieldId then qs[i].(isRequired := !qs[i].isRequired) else qs[i]
  {
    seq(|qs|, i requires 0 <= i < |qs| => if qs[i].fieldId == fieldId then qs[i].(isRequired := !qs[i].isRequired) else qs[i])
  }

  /** Flipping `required` twice restores the question list. */
  lemma ToggleRequiredTwice(qs: seq<Question>, fieldId: string)
    ensures ToggleQuestionRequired(ToggleQuestionRequired(qs, fieldId), fieldId) == qs
  {
    var r := ToggleQuestionRequired(ToggleQuestionRequired(qs, fieldId), fieldId);
    assert forall i :: 0 <= i < |qs| ==> r[i] == qs[i];
  }

  /** The three edits keep every question in place, under the same field id. */
  lemma EditsKeepFieldIds(qs: seq<Question>, fieldId: string, newLabel: string, logic: ConditionalLogic)
    ensures forall i :: 0 <= i < |qs| ==>
      && UpdateQuestionLabel(qs, fieldId, newLabel)[i].fieldId == qs[i].fieldId
      && UpdateQuestionLogic(qs, fieldId, logic)[i].fieldId == qs[i].fieldId
      && ToggleQuestionRequired(qs, fieldId)[i].fieldId == qs[i].fieldId
  {
  }

  // ---------------------------------------------------------------------
  // The conditional-logic dialog
  // ---------------------------------------------------------------------

  /** `findIndex` by field id: the first index, or -1. */
  function IndexOf(qs: seq<Question>, fieldId: string): (k: int)
    ensures -1 <= k < |qs|
    ensures k == -1 <==> !HasQuestion(qs, fieldId)
    ensures k >= 0 ==> qs[k].fieldId == fieldId && forall j :: 0 <= j < k ==> qs[j].fieldId != fieldId
  {
    if qs == [] then -1
    else if qs[0].fieldId == fieldId then 0
    else
      var k := IndexOf(qs[1..], fieldId);
      assert forall j :: 1 <= j < |qs| ==> qs[j] == qs[1..][j - 1];
      if k == -1 then -1 else k + 1
  }

  /** `Array.prototype.slice(0, end)` length: a negative end counts from the back. */
  function SliceEnd(len: nat, end: int): (e: nat)
    ensures e <= len
  {
    if end < 0 then (if len + end < 0 then 0 else len + end)
    else if end > len then len
    else end
  }

  predicate IsSingleSelect(q: Question) {
    q.fieldType == SingleSelect
  }

  /** `potentialDependentFields`: the single-select questions placed before
      `current`. When `current` is missing, `findIndex` yields -1 and the
      slice keeps all but the last question. */
  function PotentialDependentFields(qs: seq<Question>, current: Question): (r: seq<Question>)
    ensures forall i :: 0 <= i < |r| ==> IsSingleSelect(r[i])
    ensures HasQuestion(qs, current.fieldId) ==>
      var k := IndexOf(qs, current.fieldId);
      && Subsequence(r, qs[..k])
      && (forall x :: x in r <==> x in qs[..k] && IsSingleSelect(x))
      && (forall x :: multiset(r)[x] == if IsSingleSelect(x) then multiset(qs[..k])[x] else 0)
    ensures qs == [] ==> r == []
    ensures !HasQuestion(qs, current.fieldId) && qs != [] ==>
      && Subsequence(r, qs[..|qs| - 1])
      && (forall x :: x in r <==> x in qs[..|qs| - 1] && IsSingleSelect(x))
      && (forall x :: multiset(r)[x] == if IsSingleSelect(x) then multiset(qs[..|qs| - 1])[x] else 0)
  {
    var prefix := qs[..SliceEnd(|qs|, IndexOf(qs, current.fieldId))];
    FilterIsSubsequence(IsSingleSelect, prefix);
    FilterCounts(IsSingleSelect, prefix);
    Filter(IsSingleSelect, prefix)
  }

  /** `dependentFieldOptions`: the options of the first question with the
      rule's dependent field id, or none. */
  function DependentFieldOptions(qs: seq<Question>, dependentFieldId: Option<string>): (r: seq<Choice>)
    ensures dependentFieldId.None? || !HasQuestion(qs, dependentFieldId.value) ==> r == []
    ensures dependentFieldId.Some? && HasQuestion(qs, dependentFieldId.value) ==>
      r == qs[IndexOf(qs, dependentFieldId.value)].options
  {
    match dependentFieldId
    case None => []
    case Some(d) =>
      var k := IndexOf(qs, d);
      if k == -1 then [] else qs[k].options
  }

  /** Under unique field ids, the dialog lists a question's own options
      for that question's field id. */
  lemma {:induction false} OptionsOfEachQuestion(qs: seq<Question>, i: int)
    requires UniqueFieldIds(qs) && 0 <= i < |qs|
    ensures DependentFieldOptions(qs, Some(qs[i].fieldId)) == qs[i].options
  {
    assert HasQuestion(qs, qs[i].fieldId);
    var k := IndexOf(qs, qs[i].fieldId);
    assert k == i by {
      if k < i {
        assert qs[k].fieldId == qs[i].fieldId;
      }
    }
  }

  /** Under unique field ids, choosing a candidate dependent question shows
      exactly that candidate's options. */
  lemma DependentOptionsOfCandidate(qs: seq<Question>, current: Question, x: Question)
    requires UniqueFieldIds(qs) && x in PotentialDependentFields(qs, current)
    ensures DependentFieldOptions(qs, Some(x.fieldId)) == x.options
  {
    var prefix := qs[..SliceEnd(|qs|, IndexOf(qs, current.fieldId))];
    assert x in prefix;
    var j :| 0 <= j < |prefix| && prefix[j] == x;
    assert qs[j] == x;
    OptionsOfEachQuestion(qs, j);
  }

  /** The rule the dialog starts from when a question has none. */
  const EmptyRule: ConditionalLogic := ConditionalLogic(false, Some(""), Some("is"), Some(""))

  /** `initialLogic`: the question's own rule, or a disabled rule with no
      dependent question when it has none. */
  function InitialDialogLogic(q: Question): (r: ConditionalLogic)
    ensures q.conditionalLogic.Some? ==> r == q.conditionalLogic.value
    ensures q.conditionalLogic.None? ==> !r.enabled && !Truthy(r.dependentFieldId) && r.operator == Some("is")
    ensures q.conditionalLogic.None? ==> r.dependentFieldId == Some("") && r.value == Some("")
  {
    q.conditionalLogic.GetOr(EmptyRule)
  }

  /** Picking the dependent question clears the chosen value. */
  function ChooseDependent(l: ConditionalLogic, fieldId: string): (r: ConditionalLogic)
    ensures r.dependentFieldId == Some(fieldId) && r.value == Some("")
    ensures r.enabled == l.enabled && r.operator == l.operator
  {
    l.(dependentFieldId := Some(fieldId), value := Some(""))
  }

  /** `handleSave` as written: the rule is enabled unless the dependent id is
      exactly "". A rule whose id was never set (`undefined`) is enabled. */
  function SaveLogicAsWritten(l: ConditionalLogic): (r: ConditionalLogic)
    ensures r.enabled <==> l.dependentFieldId != Some("")
    ensures r.(enabled := l.enabled) == l
  {
    l.(enabled := l.dependentFieldId != Some(""))
  }

  /** `handleSave` with the evident intent: the rule is enabled exactly when
      a dependent question has been chosen. */
  function SaveLogic(l: ConditionalLogic): (r: ConditionalLogic)
    ensures r.enabled <==> Truthy(l.dependentFieldId)
    ensures r.(enabled := l.enabled) == l
  {
    l.(enabled := Truthy(l.dependentFieldId))
  }

  /** Saving the dialog of a freshly added question without choosing
      anything, as written, enables a rule with no dependent field, which
      hides the question for every set of answers keyed by field ids. */
  lemma SaveAsWrittenHidesFreshQuestion(f: Field, answers: map<string, string>)
    requires "null" !in answers
    ensures
      var l := SaveLogicAsWritten(InitialDialogLogic(NewQuestion(f)));
      l.enabled && !Visibility.IsShown(Some(l), answers)
  {
  }

  /** The corrected save leaves that rule disabled, so the question stays shown. */
  lemma SaveKeepsFreshQuestionShown(f: Field, answers: map<string, string>)
    ensures
      var l := SaveLogic(InitialDialogLogic(NewQuestion(f)));
      !l.enabled && Visibility.IsShown(Some(l), answers)
  {
  }

  /** `handleRemoveLogic`: the questions of `q`'s field get the disabled
      rule with no dependent question; all others are kept. */
  function RemoveLogic(qs: seq<Question>, q: Question): (r: seq<Question>)
    ensures |r| == |qs|
    ensures forall i :: 0 <= i < |qs| && qs[i].fieldId == q.fieldId ==>
      && r[i] == qs[i].(conditionalLogic := Some(EmptyRule))
      && !r[i].conditionalLogic.value.enabled && !Truthy(r[i].conditionalLogic.value.dependentFieldId)
    ensures forall i :: 0 <= i < |qs| && qs[i].fieldId != q.fieldId ==> r[i] == qs[i]
  {
    UpdateQuestionLogic(qs, q.fieldId, EmptyRule)
  }

  /** `handleSave` with the corrected save: the questions of `q`'s field get
      the dialog's rule, enabled exactly when a dependent question was
      chosen; all others are kept. */
  function SaveDialog(qs: seq<Question>, q: Question, l: ConditionalLogic): (r: seq<Question>)
    ensures |r| == |qs|
    ensures forall i :: 0 <= i < |qs| && qs[i].fieldId == q.fieldId ==>
      && r[i].conditionalLogic.Some?
      && r[i].conditionalLogic.value.(enabled := l.enabled) == l
      && (r[i].conditionalLogic.value.enabled <==> Truthy(l.dependentFieldId))
      && r[i].(conditionalLogic := qs[i].conditionalLogic) == qs[i]
    ensures forall i :: 0 <= i < |qs| && qs[i].fieldId != q.fieldId ==> r[i] == qs[i]
  {
    UpdateQuestionLogic(qs, q.fieldId, SaveLogic(l))
  }

  /** After removing its rule a question is shown whatever the answers. */
  lemma RemovedRuleAlwaysShown(qs: seq<Question>, q: Question, i: nat, answers: map<string, string>)
    requires i < |qs| && qs[i].fieldId == q.fieldId
    ensures Visibility.IsShown(RemoveLogic(qs, q)[i].conditionalLogic, answers)
  {
  }

  /** The rule of question `k` is off or depends on a single-select question
      placed before it. */
  predicate RuleRefersBack(qs: seq<Question>, k: nat)
    requires k < |qs|
  {
    match qs[k].conditionalLogic
    case None => true
    case Some(l) =>
      !l.enabled ||
      (l.dependentFieldId.Some? &&
       exists j :: 0 <= j < k && qs[j].fieldId == l.dependentFieldId.value && IsSingleSelect(qs[j]))
  }

  /** Saving a rule whose dependent id is unset or was picked from the
      dialog's list gives a rule that refers back to an earlier single-select
      question. */
  lemma SaveDialogRefersBack(qs: seq<Question>, k: nat, l: ConditionalLogic)
    requires k < |qs| && UniqueFieldIds(qs)
    requires !Truthy(l.dependentFieldId) ||
      exists x :: x in PotentialDependentFields(qs, qs[k]) && x.fieldId == l.dependentFieldId.value
    ensures RuleRefersBack(SaveDialog(qs, qs[k], l), k)
  {
    var r := SaveDialog(qs, qs[k], l);
    assert IndexOf(qs, qs[k].fieldId) == k;
    if Truthy(l.dependentFieldId) {
      var x :| x in PotentialDependentFields(qs, qs[k]) && x.fieldId == l.dependentFieldId.value;
      var j :| 0 <= j < k && qs[..k][j] == x;
      assert r[j] == qs[j];
    }
  }

  /** As written, saving a new question's dialog untouched gives a rule that
      is enabled but refers to no earlier question. */
  lemma SaveAsWrittenBreaksRefersBack(qs: seq<Question>, k: nat)
    requires k < |qs| && qs[k].conditionalLogic == Some(DefaultLogic)
    ensures !RuleRefersBack(UpdateQuestionLogic(qs, qs[k].fieldId, SaveLogicAsWritten(InitialDialogLogic(qs[k]))), k)
  {
  }

  /** A saved rule refers back only at the moment it is saved: unticking the
      single-select question it depends on and ticking it again moves that
      question behind the dependent one. */
  lemma RetickBreaksRefersBack()
    ensures
      var a := Field("a", "Attending?", SingleSelect, [Choice("c1", "Yes")]);
      var qs := [Question("a", "Attending?", SingleSelect, [Choice("c1", "Yes")], Some(DefaultLogic), false),
                 Question("b", "Diet", "singleLineText", [], Some(DefaultLogic), false)];
      var saved := SaveDialog(qs, qs[1], ChooseDependent(DefaultLogic, "a"));
      var reticked := ToggleField(ToggleField(saved, a), a);
      && RuleRefersBack(saved, 1)
      && |reticked| == 2 && reticked[0].fieldId == "b"
      && !RuleRefersBack(reticked, 0)
  {
    var a := Field("a", "Attending?", SingleSelect, [Choice("c1", "Yes")]);
    var qs := [Question("a", "Attending?", SingleSelect, [Choice("c1", "Yes")], Some(DefaultLogic), false),
               Question("b", "Diet", "singleLineText", [], Some(DefaultLogic), false)];
    var saved := SaveDialog(qs, qs[1], ChooseDependent(DefaultLogic, "a"));
    assert saved[0] == qs[0];
    var rule := saved[1].conditionalLogic.value;
    assert rule.enabled && rule.dependentFieldId == Some("a");
    assert RuleRefersBack(saved, 1);
    RetickMovesBehind(saved, a);
  }

  /** Unticking the field of the first of two questions and ticking it again
      puts its new question behind the other one. */
  lemma RetickMovesBehind(qs: seq<Question>, f: Field)
    requires |qs| == 2 && qs[0].fieldId == f.id && qs[1].fieldId != f.id
    ensures ToggleField(ToggleField(qs, f), f) == [qs[1], NewQuestion(f)]
  {
    RemovingFirstOfTwo(qs, f);
    assert !HasQuestion([qs[1]], f.id);
  }

  /** Unticking the field of the first of two questions leaves the second. */
  lemma RemovingFirstOfTwo(qs: seq<Question>, f: Field)
    requires |qs| == 2 && qs[0].fieldId == f.id && qs[1].fieldId != f.id
    ensures ToggleField(qs, f) == [qs[1]]
  {
    assert HasQuestion(qs, f.id);
    assert qs[1..] == [qs[1]];
    assert [qs[1]][1..] == [];
  }

  // ---------------------------------------------------------------------
  // Saving the form
  // ---------------------------------------------------------------------

  datatype SaveFormError = NameOrFieldsMissing

  /** `handleSaveForm`: refuses a blank name or an empty question list,
      otherwise builds the request body (with the name untrimmed). */
  function SaveForm(b: BuilderState, creatorId: string): (r: Result<Api.CreateFormRequest, SaveFormError>)
    ensures r.Failure? <==> IsBlank(b.formName) || b.questions == []
    ensures r.Success? ==>
      && r.value.formName == Some(b.formName)
      && r.value.creatorId == Some(creatorId)
      && r.value.airtableBaseId == Some(b.selectedBase)
      && r.value.airtableTableId == Some(b.selectedTable)
      && r.value.questions.Some? && |r.value.questions.value| == |b.questions|
  {
    TrimEmptyIffBlank(b.formName);
    if Trim(b.formName) == "" || |b.questions| == 0 then Failure(NameOrFieldsMissing)
    else
      Success(Api.CreateFormRequest(
        Some(b.formName), Some(creatorId), Some(b.selectedBase), Some(b.selectedTable),
        Some(seq(|b.questions|, i requires 0 <= i < |b.questions| => QuestionToInput(b.questions[i])))))
  }

  /** A form the builder lets through, with a base, a table, a creator and
      well-formed questions, is stored by the server exactly as built. */
  lemma SavedFormIsStored(b: BuilderState, creatorId: string)
    requires SaveForm(b, creatorId).Success?
    requires creatorId != "" && b.selectedBase != "" && b.selectedTable != ""
    requires forall i :: 0 <= i < |b.questions| ==> ValidQuestion(b.questions[i])
    ensures Api.CreateForm(SaveForm(b, creatorId).value) ==
      Api.Created(Form(b.formName, creatorId, b.selectedBase, b.selectedTable, b.questions))
  {
    var req := SaveForm(b, creatorId).value;
    forall i | 0 <= i < |b.questions| ensures BuildQuestion(req.questions.value[i]) == Some(b.questions[i]) {
      QuestionRoundTrip(b.questions[i]);
    }
    var built := BuildQuestions(req.questions.value);
    assert built.value == b.questions;
  }

  /** A question whose label was cleared passes the builder's check but
      fails the server's validation. */
  lemma ClearedLabelFailsOnServer(b: BuilderState, creatorId: string, i: nat)
    requires SaveForm(b, creatorId).Success?
    requires creatorId != "" && b.selectedBase != "" && b.selectedTable != ""
    requires i < |b.questions| && b.questions[i].labelText == ""
    ensures Api.CreateForm(SaveForm(b, creatorId).value) == Api.SaveFailed
  {
    var req := SaveForm(b, creatorId).value;
    assert BuildQuestion(req.questions.value[i]).None?;
  }
}
