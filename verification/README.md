# Airtable-connected form builder — a Dafny model of its core logic

The modelled system lets a user sign in with Airtable (OAuth 2 with PKCE),
build a form from the fields of an Airtable table, attach a conditional
visibility rule to each question, and fill the form in with questions shown
or hidden by earlier answers. This project models, as pure functions over
immutable datatypes, the parts of it that carry logic:

- the stored document schemas: Form -> Question -> ConditionalLogic with
  their defaults and required paths (`formmodel.dfy`), and the user record
  with its token pair and unique indexes (`usermodel.dfy`);
- the form viewer: the visibility test `checkCondition`, the filter of shown
  questions, the initial and edited answers, and the required-answer check
  before the preview (`visibility.dfy`);
- the form builder: choosing a table, ticking fields into questions, the
  three question edits, the conditional-logic dialog, and the checks before
  saving (`builder.dfy`);
- the backend helpers: `base64URLEncode` over the standard base64 of section 4
  of RFC 4648, which yields the unpadded base64url text of section 5 used for
  the PKCE values of RFC 7636, the hex `state`, and `sanitizeText`
  (`encoding.dfy`, `sanitize.dfy`);
- the login state machine: the `state -> codeVerifier` map written by the
  login start and taken by the callback (`sessions.dfy`);
- the token-refresh decision of `getAirtableToken` over abstract upstream
  outcomes (`tokenbroker.dfy`);
- the form-creation handler, the OAuth callback with its upsert, and the
  token-free user profile (`api.dfy`).

`common.dfy` holds `Option`/`Result`, `seqs.dfy` an order-preserving filter,
and `jsstring.dfy` JavaScript's `trim` and `includes`.

Modelling conventions. JavaScript `null`/`undefined` are `None`, except for
a rule's `operator` key: the schema default `"is"` replaces only an absent
key, so an explicit `null` is kept and is modelled apart (`FormModel.Json`). Truthiness
of a string (`!x`) is "absent or empty". A user's `_id` is its index in the
user collection. Random bytes, the SHA-256 digest, and the calls to
Airtable's token and identity endpoints are parameters. The question field
`label` is called `labelText` because `label` is a Dafny keyword. The
builder's new-question rule literal `{enabled: false}` is modelled as the
schema-default rule it is stored as. JavaScript coerces an absent property
key to text, so a stored rule whose dependent id is `null` looks up the
answer "null", and a callback without `state` looks up "undefined"; the
model does the same (`Visibility.DependentKey`, `Sessions.StateKey`).

Behaviour of the code worth knowing, as the model states it:

- The preview check covers every required question, hidden ones included
  (`Visibility.HiddenRequiredQuestionBlocksPreview`), so a required question
  hidden by its rule keeps the preview closed until it is answered.
- `POST /api/forms` accepts an empty `questions` array, because an empty
  array is truthy.
- Nothing checks that a stored rule depends on an earlier single-select
  question. The dialog offers only such questions, so a rule saved with the
  corrected save refers back at the moment it is saved
  (`Builder.SaveDialogRefersBack`). It need not stay so: the save as written
  enables a rule with no dependent question
  (`Builder.SaveAsWrittenBreaksRefersBack`), and unticking and re-ticking
  the dependent field moves that question behind the rule
  (`Builder.RetickBreaksRefersBack`).
- `responses` in the viewer is a plain object, so a rule posted straight to
  `POST /api/forms` whose dependent id names an inherited property such as
  `toString` finds a built-in function: under `isNot` the question is then
  always shown (`Visibility.InheritedDependencyScenario`). The builder never
  produces such an id.
- The token decision probes the identity endpoint and refreshes on a 401.
  It does not retry the caller's request. It keeps the old refresh token,
  ignoring one the refresh may return, and has no single-flight.
- The session map has no expiry. It is a plain object, so `state` values
  naming inherited properties (`toString`, `constructor`, ...) pass the
  callback's check (see Findings).

## Model

| member | source | states |
|---|---|---|
| `Seqs.Filter` | frontend/src/App.jsx:561-562 | the kept elements are exactly those of the input that pass the test, and no more of them than the input has |
| `Seqs.FilterIsSubsequence` | frontend/src/App.jsx:561-562 | filtering keeps the relative order of what it keeps |
| `Seqs.FilterSnoc` | frontend/src/App.jsx:241 | filtering a list with one element appended is filtering the list, then appending that element if it passes |
| `Seqs.FilterCounts` | frontend/src/App.jsx:561-562 | filtering keeps every copy of a value that passes and no copy of one that fails |
| `JsString.LeadingWhitespace` | frontend/src/App.jsx:279 | the count is the longest prefix of whitespace: all before it are whitespace, the next one is not |
| `JsString.TrailingWhitespace` | frontend/src/App.jsx:279 | the count is the longest suffix of whitespace |
| `JsString.Trim` | frontend/src/App.jsx:279 | the trimmed text is the input with a blank prefix and a blank suffix removed, and it is empty or starts and ends with a non-whitespace character |
| `JsString.TrimEmptyIffBlank` | frontend/src/App.jsx:279 | a name trims to "" exactly when it consists of whitespace only |
| `JsString.Includes` | frontend/src/App.jsx:247 | `includes` holds exactly when the sub-text occurs at some position |
| `FormModel.LogicWithDefaults` | backend/models/formModel.js:5-10 | absent `enabled` becomes false; an absent `operator` becomes "is" while an explicit `null` operator is stored as `null`; `dependentFieldId` and `value` stay null when absent; given keys are kept |
| `FormModel.EmptyLogicIsDefault` | backend/models/formModel.js:5-10 | an empty rule object is stored as `{false, null, "is", null}` |
| `FormModel.LogicRoundTrip` | backend/models/formModel.js:5-10 | serialising a rule and applying the defaults returns the rule |
| `FormModel.BuildQuestion` | backend/models/formModel.js:12-19 | a question document is built exactly when `fieldId`, `label` and `type` are non-empty; `isRequired` defaults to false; options are kept; a submitted rule is stored with the schema defaults applied (`FormModel.LogicWithDefaults`), and no rule stays none |
| `FormModel.BuildQuestions` | backend/models/formModel.js:26 | the question list is stored in order and only when every question is valid |
| `FormModel.QuestionRoundTrip` | backend/models/formModel.js:12-19 | a valid question survives serialisation and rebuilding unchanged; an invalid one is rejected |
| `UserModel.FindByAirtableId` | backend/index.js:130-131 | finds the first user with the Airtable id, or reports that none has it |
| `UserModel.Upsert` | backend/index.js:130-134 | the user with that Airtable id is updated in place, or a new one appended; it then holds the new email and both tokens; other users are untouched; a clash with another user's email is refused |
| `UserModel.UpsertPreservesInvariant` | backend/models/userModel.js:4-23 | an upsert of non-empty values keeps every user valid and keeps Airtable ids and emails unique |
| `UserModel.UpsertIdempotent` | backend/index.js:130-134 | repeating the same upsert changes nothing and returns the same user |
| `UserModel.PublicProfile` | backend/index.js:143-151 | a profile exists exactly for stored ids and carries only id, Airtable id and email |
| `UserModel.ProfileIgnoresTokens` | backend/index.js:145 | the profile response is independent of both token fields |
| `UserModel.ProfileAfterUpsert` | backend/index.js:130-146 | after an upsert the profile shows the written Airtable id and email |
| `TokenBroker.GetAirtableToken` | backend/index.js:33-71 | unknown user fails; a passing probe returns the stored token and writes nothing; a non-401 failure is passed on without refresh; after a 401 a granted non-empty token is stored as that user's access token and returned, and a refused or empty refresh fails with CouldNotRefresh, writing nothing; refresh tokens never change |
| `TokenBroker.TokenLookupPreservesInvariant` | backend/index.js:59-61 | a token lookup keeps every user valid and the unique indexes intact |
| `TokenBroker.FailedRefreshIsAnError` | backend/index.js:43-67 | after a 401, a refused refresh or one without a token fails with CouldNotRefresh and leaves the users unchanged |
| `TokenBroker.RefreshThenReuse` | backend/index.js:37-63 | after a refresh the next passing probe hands out the refreshed token |
| `Encoding.StdDigit` | backend/index.js:26 | every base64 digit is in the standard alphabet |
| `Encoding.Base64Std` | backend/index.js:81 | the standard encoding has four characters per started group of three bytes, alphabet characters first and then exactly the padding count of '=' |
| `Encoding.UrlRewrite` | backend/index.js:25-27 | the rewrite leaves no '+', '/' or '=' and shortens the text by its number of '=' |
| `Encoding.UrlRewriteAppend` | backend/index.js:25-27 | the rewrite works character by character: it distributes over concatenation |
| `Encoding.UrlRewriteOfStdChars` | backend/index.js:25-27 | on standard-alphabet text the rewrite keeps the length, yields base64url characters, and only swaps '+' and '/' |
| `Encoding.StdBody` | backend/index.js:25-27 | the standard encoding is its unpadded part followed by the padding |
| `Encoding.Base64Url` | backend/index.js:25-27 | `base64URLEncode` of n bytes has (4n+2)/3 characters, all from the base64url alphabet |
| `Encoding.RestoreInvertsUrlRewrite` | backend/index.js:25-27 | swapping back and re-padding a base64url encoding gives the standard encoding: the rewrite loses nothing |
| `Encoding.Base64UrlOf32BytesIsVerifier` | backend/index.js:81 | the verifier made from 32 random bytes has 43 unreserved characters, a valid PKCE code verifier |
| `Encoding.Hex` | backend/index.js:80 | the hex `state` has two lower-case hex digits per byte |
| `Encoding.HexInjective` | backend/index.js:80 | distinct random byte strings give distinct `state` values |
| `Sanitize.ReplaceNonLatin1` | backend/index.js:75 | length in code units is kept; code units up to 0xFF are unchanged; the others become '?' |
| `Sanitize.SanitizeText` | backend/index.js:73-76 | null or undefined gives ""; otherwise each code unit up to 0xFF is kept in place and every other one becomes '?', so the result has the input's length and only Latin-1 code units |
| `Sanitize.SanitizeKeepsLatin1` | backend/index.js:73-76 | Latin-1 text passes through unchanged |
| `Sanitize.SanitizeIdempotent` | backend/index.js:73-76 | sanitizing twice equals sanitizing once |
| `Sessions.BeginLogin` | backend/index.js:79-83 | the state is the hex of the 16 random state bytes and the verifier the base64url of the 32 random verifier bytes; the map gains `state -> codeVerifier`; the state is 32 hex digits, the verifier valid, and the challenge is the 43-character base64url of the verifier's digest |
| `Sessions.TakeVerifier` | backend/index.js:98-104 | the intended check: refused exactly when `code` is missing or the map holds no verifier for the state; otherwise returns that verifier and removes only that entry |
| `Sessions.TakeVerifierAsWritten` | backend/index.js:99-104 | as written: an own entry or an inherited property name passes the check; an inherited one yields that property's text and removes nothing; refused exactly when `code` is missing, the own entry is empty, or the state is neither held nor inherited |
| `Sessions.TakeVerifierAgreesOffInheritedKeys` | backend/index.js:99-104 | the check as written and the intended one agree except on an inherited name the map does not hold |
| `Sessions.InheritedStateIsAccepted` | backend/index.js:99-104 | as written, `state=toString` is accepted with a function's text as verifier and removes nothing; the intended check refuses it |
| `Sessions.CallbackIsSingleUse` | backend/index.js:99-104 | a second callback with the same state is refused |
| `Sessions.LoginRoundTrip` | backend/index.js:79-104 | the callback of a fresh login receives that login's verifier and leaves the map as it was before the login |
| `Sessions.DistinctBytesGiveDistinctStates` | backend/index.js:80-82 | logins started from different random state bytes get different states, so neither overwrites the other's entry |
| `Sessions.BeginLoginKeepsIssuedStates` | backend/index.js:80-82 | every pending key is a generated hex state |
| `Sessions.MissingStateIsRejected` | backend/index.js:98-102 | a callback without `state` never takes a pending attempt |
| `Api.CreateForm` | backend/index.js:180-191 | 400 exactly when a required key is missing; 500 exactly when a question fails validation; otherwise the stored form is valid, carries the request's values, and its questions are the built request questions in order |
| `Api.HandleCallback` | backend/index.js:97-141 | with the intended check: 400 exactly when the attempt is refused, changing nothing; otherwise the attempt is consumed; a redirect happens exactly when the exchange, the identity call and the upsert succeed, and the users are then the upsert's result; a 500 writes no user |
| `Api.HandleCallbackAsWritten` | backend/index.js:97-141 | as written: 400 exactly when the as-written check refuses; otherwise the attempt's own entry, if any, is removed; a redirect happens exactly when the exchange with the as-written verifier, the identity call and the upsert succeed, and the users are then the upsert's result; a 500 writes no user |
| `Api.CallbackAsWrittenAgreesOffInheritedKeys` | backend/index.js:97-141 | the callback as written and the intended one give the same answer, sessions and users whenever the state is held or names no inherited property |
| `Api.InheritedStateEndsInServerError` | backend/index.js:97-141 | as written, `state=toString` reaches the token exchange and ends in a 500 with nothing changed; the intended check answers 400 |
| `Api.UnknownStateChangesNothing` | backend/index.js:99-103 | with the intended check, a callback whose state the map does not hold is refused and changes neither map nor users |
| `Api.ReplayedCallbackRejected` | backend/index.js:99-104 | replaying a handled callback is refused |
| `Api.ProfileAfterLogin` | backend/index.js:130-146 | after a login the profile of the returned id shows the identity that logged in |
| `Visibility.IsShown` | frontend/src/App.jsx:534-541 | no rule or a disabled rule shows the question; an enabled rule whose dependent lookup is falsy (an absent or empty answer, not an inherited property) hides it; a shown question under an enabled rule has operator `is` or `isNot` |
| `Visibility.IsAndIsNotAreComplementary` | frontend/src/App.jsx:536-539 | with a truthy dependent lookup `isNot` is the negation of `is`, and for an own answer `is` shows exactly on equality; a lookup that finds an inherited property hides under `is` and shows under `isNot`; unanswered, both hide |
| `Visibility.UnknownOperatorHides` | frontend/src/App.jsx:540 | an enabled rule with any other operator hides the question |
| `Visibility.NullOperatorHidesQuestion` | backend/models/formModel.js:8 | a rule submitted with `operator: null` is stored with a null operator and hides its question even when the dependent answer matches |
| `Visibility.IsShownIsLocal` | frontend/src/App.jsx:536 | visibility reads only the dependent field's answer |
| `Visibility.SetAnswer` | frontend/src/App.jsx:504-506 | the edited field holds the new value and all other answers stay |
| `Visibility.SetAnswersCommute` | frontend/src/App.jsx:504-506 | answers to different fields may be entered in either order |
| `Visibility.SetAnswerKeepsUnrelatedVisibility` | frontend/src/App.jsx:504-506 | an answer changes the visibility only of questions depending on that field |
| `Visibility.InitialResponses` | frontend/src/App.jsx:491-495 | the initial answers have a key for every question and all are empty |
| `Visibility.VisibleQuestions` | frontend/src/App.jsx:561-562 | the rendered questions are the shown ones in form order, each as many times as the form has it |
| `Visibility.FreshFormShowsOnlyUnconditional` | frontend/src/App.jsx:491-495 | on a fresh form exactly the questions without an enabled rule are shown, plus those whose `isNot` rule depends on an inherited property name that is no question's field id |
| `Visibility.FirstMissingRequired` | frontend/src/App.jsx:508-517 | the preview opens exactly when no required question is empty; otherwise the first such question is reported |
| `Visibility.FreshFormPreviewBlockedIffRequired` | frontend/src/App.jsx:510-516 | on a fresh form the preview is refused exactly when some question is required |
| `Visibility.HiddenRequiredQuestionBlocksPreview` | frontend/src/App.jsx:510-516 | a required question hidden by its rule still blocks the preview |
| `Visibility.InheritedDependencyScenario` | frontend/src/App.jsx:534-541 | a rule on dependent id `toString` shows its question under `isNot "Yes"` and hides it under `is "Yes"` for any answers without that own key |
| `Visibility.IsRuleScenario` | frontend/src/App.jsx:534-541 | `is "Yes"` shows on "Yes", hides on "No" and when unanswered |
| `Visibility.IsNotRuleScenario` | frontend/src/App.jsx:534-541 | `isNot "Yes"` shows on "No", hides on "Yes", when unanswered and on "" |
| `Builder.FindTable` | frontend/src/App.jsx:228 | the first table with the id, or none when no table has it |
| `Builder.SelectTable` | frontend/src/App.jsx:224-235 | the questions are cleared; an empty id clears the fields; otherwise the fields are the chosen table's supported fields in table order, each as often as the table has it; an unknown id fails |
| `Builder.NewQuestion` | frontend/src/App.jsx:243-250 | a new question copies the field's id, name and type, is optional, has a disabled rule, and has options only if its type contains "Select" |
| `Builder.SelectTypesKeepChoices` | frontend/src/App.jsx:247 | of the supported types exactly `singleSelect` and `multipleSelects` keep their choices |
| `Builder.ToggleField` | frontend/src/App.jsx:237-254 | toggling flips whether the field has a question: an absent one is appended at the end; a present one is removed, and every question of another field is kept in order with its multiplicity |
| `Builder.ToggleTwiceRestores` | frontend/src/App.jsx:237-254 | ticking and unticking an absent field restores the list |
| `Builder.ToggleKeepsUniqueFieldIds` | frontend/src/App.jsx:237-254 | toggling keeps field ids distinct |
| `Builder.UpdateQuestionLabel` | frontend/src/App.jsx:256-260 | same length and order; only questions of that field change, and only their label |
| `Builder.UpdateQuestionLogic` | frontend/src/App.jsx:262-268 | same length and order; only questions of that field change, and only their rule |
| `Builder.ToggleQuestionRequired` | frontend/src/App.jsx:270-276 | same length and order; only questions of that field change, and only their required flag |
| `Builder.ToggleRequiredTwice` | frontend/src/App.jsx:270-276 | flipping required twice restores the list |
| `Builder.EditsKeepFieldIds` | frontend/src/App.jsx:256-276 | the edits keep every question's field id in place |
| `Builder.IndexOf` | frontend/src/App.jsx:44-46 | the first index with the field id, or -1 exactly when none has it |
| `Builder.PotentialDependentFields` | frontend/src/App.jsx:43-50 | the candidates are exactly the single-select questions before the current one, in order and with their multiplicity; when it is missing, those among all but the last |
| `Builder.DependentFieldOptions` | frontend/src/App.jsx:52-57 | the options of the first question with the dependent id, or none |
| `Builder.OptionsOfEachQuestion` | frontend/src/App.jsx:52-57 | with unique field ids, a question's own field id lists exactly that question's options |
| `Builder.DependentOptionsOfCandidate` | frontend/src/App.jsx:52-57 | with unique field ids, choosing any candidate dependent question shows exactly its options |
| `Builder.InitialDialogLogic` | frontend/src/App.jsx:35-40 | the dialog starts from the question's own rule, or from a disabled rule with dependent id "", operator "is" and value "" |
| `Builder.ChooseDependent` | frontend/src/App.jsx:87-92 | choosing a dependent question clears the chosen value and keeps the rest |
| `Builder.SaveLogicAsWritten` | frontend/src/App.jsx:59-65 | as written, the saved rule is enabled unless its dependent id is exactly "", and is otherwise unchanged |
| `Builder.SaveAsWrittenHidesFreshQuestion` | frontend/src/App.jsx:59-65 | as written, saving the dialog of a new question untouched enables a rule that hides it for any answers |
| `Builder.SaveLogic` | frontend/src/App.jsx:59-65 | the saved rule is enabled exactly when a dependent question was chosen, and is otherwise unchanged |
| `Builder.SaveKeepsFreshQuestionShown` | frontend/src/App.jsx:59-65 | saving the dialog of a new question untouched leaves it shown |
| `Builder.RemoveLogic` | frontend/src/App.jsx:67-75 | the questions of that field get a disabled rule with no dependent question; all other questions are unchanged; the length is kept |
| `Builder.SaveDialog` | frontend/src/App.jsx:59-65 | with the corrected save, the questions of that field get the dialog's rule, enabled exactly when a dependent question was chosen, and nothing else of them changes; all other questions are unchanged |
| `Builder.RemovedRuleAlwaysShown` | frontend/src/App.jsx:67-75 | after removing its rule a question is shown for any answers |
| `Builder.SaveDialogRefersBack` | frontend/src/App.jsx:43-65 | with the corrected save, a rule saved from the dialog's candidates is off, or depends on a single-select question placed earlier, at the moment it is saved |
| `Builder.SaveAsWrittenBreaksRefersBack` | frontend/src/App.jsx:59-65 | as written, saving a new question's dialog untouched gives an enabled rule that refers to no earlier question |
| `Builder.RetickBreaksRefersBack` | frontend/src/App.jsx:237-254 | unticking and re-ticking the field a saved rule depends on moves it behind the dependent question, so the rule no longer refers back |
| `Builder.SaveForm` | frontend/src/App.jsx:278-290 | saving is refused exactly when the name is blank or there are no questions; otherwise the request carries the untrimmed name, the creator, base and table, and one entry per question |
| `Builder.SavedFormIsStored` | frontend/src/App.jsx:278-292 | a form the builder lets through, with creator, base, table and valid questions, is stored by the server exactly as built |
| `Builder.ClearedLabelFailsOnServer` | backend/models/formModel.js:14 | a question whose label was cleared passes the builder but fails the server's validation |

## Left out

- React rendering, hooks, routing, `LoginPage`, `Dashboard` and `App`: user interface without logic beyond what is modelled.
- Browser APIs (`localStorage`, clipboard, `window`): user-interface plumbing.
- Network calls: the builder's and viewer's requests to the backend, the base and table listing, the form list and fetch routes, and the submit route forward data unchanged. The token endpoint and the identity endpoint appear only as outcome parameters of `TokenBroker.GetAirtableToken` and `Api.HandleCallback`.
- `crypto.randomBytes` and SHA-256: library calls, taken as parameters of `Sessions.BeginLogin`.
- Building the authorization URL with its query parameters: a library call.
- The PDF export layout: floating-point drawing through a library. Only `sanitizeText` is modelled, on text already converted to UTF-16 code units. The `String(...)` conversion of non-string values is not modelled.
- Mongoose casting of ids: a malformed `creatorId` or `:id` is not modelled, nor the 500 it causes. Timestamps, the `createdAt` sort, and the dropping of unknown keys from options are also out.
- `UserModel.Upsert`: neither the update nor the insert path of the upsert runs the `required` validators, so its preservation of the schema's promises is stated only for non-empty values (`UserModel.UpsertPreservesInvariant`).
- `FormModel.LogicWithDefaults`: an explicit `null` for `enabled` is modelled as false, and `FormModel.BuildQuestion` models an explicit `null` `isRequired` as false. Mongoose stores both as `null`, but every reader treats `null` and false alike.
- `Sessions.TakeVerifierAsWritten`: the exact text of an inherited value is taken as V8 prints it; only its being some text that is not a verifier matters. A `state` repeated in the query, which arrives as an array, is not modelled.
- `Visibility.IsShown`: the value an inherited property lookup finds is modelled only as truthy and equal to no answer text, which is all the rule test uses.
- `TokenBroker.GetAirtableToken`: a failed database save after a granted refresh is covered by `RefreshDenied`. Both lead to the same error and write nothing.
- `handleBaseSelect` / `fetchTables` and the dialog's operator and value selectors: plain state updates.
- `Privacy.jsx` and `Terms.jsx`: static markup.
- Session expiry, refresh-token rotation, single-flight refresh, and server-side visibility or required checks on submit: the code has none of them.

## Findings

| source | as written | input that shows it | evidently intended | confidence | as-written member | corrected member |
|---|---|---|---|---|---|---|
| frontend/src/App.jsx:59-65 | the dialog's save enables the rule whenever the dependent id is not exactly "", which includes a rule whose id was never set | tick a field, open its logic dialog, and press Save without choosing a question: the new question's rule `{enabled: false}` is saved as enabled with no dependent id, and the viewer then never shows that question | enable the rule only when a dependent question has been chosen | high; not executed | `Builder.SaveAsWrittenHidesFreshQuestion` | `Builder.SaveLogic` |
| backend/index.js:99-104 | the callback looks the state up on a plain object, so an inherited property name is found, passes the truthiness check, and survives the `delete` | `GET /api/auth/airtable/callback?code=x&state=toString`: the text of `Object.prototype.toString` is sent as the code verifier, the token endpoint refuses it, and the answer is a 500 | a state the login start never issued is refused with a 400 | high; not executed | `Api.InheritedStateEndsInServerError` | `Sessions.TakeVerifier` |
