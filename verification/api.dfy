/** The request handlers of the backend that carry logic: form creation, the
    OAuth callback, and the user profile lookup. The token-endpoint exchange
    and the identity call are foreign I/O and are passed in as functions. */
module Api {
  import opened Common
  import opened FormModel
  import opened UserModel
  import opened Sessions

  /** The JSON body of `POST /api/forms`; `None` is an absent or null key. */
  datatype CreateFormRequest = CreateFormRequest(
    formName: Option<string>,
    creatorId: Option<string>,
    airtableBaseId: Option<string>,
    airtableTableId: Option<string>,
    questions: Option<seq<QuestionInput>>)

  datatype CreateFormResponse =
    | Created(form: Form)      // 201
    | MissingFormData          // 400, nothing saved
    | SaveFailed               // 500, the document failed validation

  /** The handler's presence check: every string key truthy, `questions`
      present (an empty array is truthy in JavaScript, so it passes). */
  predicate HasRequiredFormData(req: CreateFormRequest) {
    && Truthy(req.formName) && Truthy(req.creatorId)
    && Truthy(req.airtableBaseId) && Truthy(req.airtableTableId)
    && req.questions.Some?
  }

  /** `POST /api/forms`: the presence check, then the schema validation of save. */
  function CreateForm(req: CreateFormRequest): (r: CreateFormResponse)
    ensures r.MissingFormData? <==> !HasRequiredFormData(req)
    ensures r.SaveFailed? <==>
      HasRequiredFormData(req) && exists i :: 0 <= i < |req.questions.value| && BuildQuestion(req.questions.value[i]).None?
    ensures r.Created? ==>
      && ValidForm(r.form)
      && r.form.formName == req.formName.value && r.form.creatorId == req.creatorId.value
      && r.form.airtableBaseId == req.airtableBaseId.value && r.form.airtableTableId == req.airtableTableId.value
      && |r.form.questions| == |req.questions.value|
      && BuildQuestions(req.questions.value) == Some(r.form.questions)
  {
    if !HasRequiredFormData(req) then MissingFormData
    else
      match BuildQuestions(req.questions.value)
      case None => SaveFailed
      case Some(qs) =>
        Created(Form(req.formName.value, req.creatorId.value, req.airtableBaseId.value, req.airtableTableId.value, qs))
  }

  /** Outcome of exchanging the authorization code and verifier for tokens. */
  datatype ExchangeOutcome = Exchanged(accessToken: string, refreshToken: string) | ExchangeFailed

  /** Outcome of the identity call made with the new access token. */
  datatype IdentityOutcome = Identified(airtableUserId: string, email: string) | IdentityFailed

  datatype CallbackResponse =
    | InvalidLoginRequest        // 400
    | RedirectWithUser(id: nat)  // redirect to the front end carrying the user id
    | AuthenticationError        // 500

  datatype CallbackResult = CallbackResult(response: CallbackResponse, sessions: SessionStore, users: UserStore)

  /** The callback after its first step: a refused attempt is a 400; an
      accepted one goes to the token exchange, the identity call and the
      upsert, and any failure among them is a 500. */
  function FinishCallback(check: CallbackCheck, sessions: SessionStore, users: UserStore, code: Option<string>,
                          exchange: (string, string) -> ExchangeOutcome, whoami: string -> IdentityOutcome)
    : CallbackResult
    requires check.Accepted? ==> code.Some?
  {
    match check
    case Rejected => CallbackResult(InvalidLoginRequest, sessions, users)
    case Accepted(verifier, rest) =>
      match exchange(code.value, verifier)
      case ExchangeFailed => CallbackResult(AuthenticationError, rest, users)
      case Exchanged(access, refresh) =>
        match whoami(access)
        case IdentityFailed => CallbackResult(AuthenticationError, rest, users)
        case Identified(airtableUserId, email) =>
          match Upsert(users, airtableUserId, email, access, refresh)
          case Failure(_) => CallbackResult(AuthenticationError, rest, users)
          case Success((users', id)) => CallbackResult(RedirectWithUser(id), rest, users')
  }

  /** `GET /api/auth/airtable/callback`, with the intended lookup of the
      attempt. Once the attempt is taken, its entry is gone whatever happens
      next; a login redirects exactly when the exchange, the identity call and
      the upsert all succeed, and then the users are the upsert's. */
  function HandleCallback(sessions: SessionStore, users: UserStore, code: Option<string>, state: Option<string>,
                          exchange: (string, string) -> ExchangeOutcome, whoami: string -> IdentityOutcome)
    : (r: CallbackResult)
    ensures r.response.InvalidLoginRequest? <==> TakeVerifier(sessions, code, state).Rejected?
    ensures r.response.InvalidLoginRequest? ==> r.sessions == sessions && r.users == users
    ensures !r.response.InvalidLoginRequest? ==> r.sessions == sessions - {StateKey(state)}
    ensures r.response.AuthenticationError? ==> r.users == users
    ensures r.response.RedirectWithUser? <==>
      && TakeVerifier(sessions, code, state).Accepted?
      && var tokens := exchange(code.value, sessions[StateKey(state)]);
      && tokens.Exchanged?
      && var who := whoami(tokens.accessToken);
      && who.Identified?
      && Upsert(users, who.airtableUserId, who.email, tokens.accessToken, tokens.refreshToken).Success?
    ensures r.response.RedirectWithUser? ==>
      var tokens := exchange(code.value, sessions[StateKey(state)]);
      var who := whoami(tokens.accessToken);
      && Upsert(users, who.airtableUserId, who.email, tokens.accessToken, tokens.refreshToken)
         == Success((r.users, r.response.id))
      && r.response.id < |r.users|
      && r.users[r.response.id] == User(who.airtableUserId, who.email, tokens.accessToken, tokens.refreshToken)
  {
    FinishCallback(TakeVerifier(sessions, code, state), sessions, users, code, exchange, whoami)
  }

  /** The callback as written, whose lookup also finds inherited properties. */
  function HandleCallbackAsWritten(sessions: SessionStore, users: UserStore, code: Option<string>, state: Option<string>,
                                   exchange: (string, string) -> ExchangeOutcome, whoami: string -> IdentityOutcome)
    : (r: CallbackResult)
    ensures r.response.InvalidLoginRequest? <==> TakeVerifierAsWritten(sessions, code, state).Rejected?
    ensures r.response.InvalidLoginRequest? ==> r.sessions == sessions && r.users == users
    ensures !r.response.InvalidLoginRequest? ==> r.sessions == sessions - {StateKey(state)}
    ensures r.response.AuthenticationError? ==> r.users == users
    ensures r.response.RedirectWithUser? <==>
      && TakeVerifierAsWritten(sessions, code, state).Accepted?
      && var tokens := exchange(code.value, TakeVerifierAsWritten(sessions, code, state).codeVerifier);
      && tokens.Exchanged?
      && var who := whoami(tokens.accessToken);
      && who.Identified?
      && Upsert(users, who.airtableUserId, who.email, tokens.accessToken, tokens.refreshToken).Success?
    ensures r.response.RedirectWithUser? ==>
      var tokens := exchange(code.value, TakeVerifierAsWritten(sessions, code, state).codeVerifier);
      var who := whoami(tokens.accessToken);
      && Upsert(users, who.airtableUserId, who.email, tokens.accessToken, tokens.refreshToken)
         == Success((r.users, r.response.id))
      && r.response.id < |r.users|
      && r.users[r.response.id] == User(who.airtableUserId, who.email, tokens.accessToken, tokens.refreshToken)
  {
    FinishCallback(TakeVerifierAsWritten(sessions, code, state), sessions, users, code, exchange, whoami)
  }

  /** The callback as written behaves as intended whenever its `state` is
      held or names no inherited property. */
  lemma CallbackAsWrittenAgreesOffInheritedKeys(sessions: SessionStore, users: UserStore, code: Option<string>,
                                                state: Option<string>, exchange: (string, string) -> ExchangeOutcome,
                                                whoami: string -> IdentityOutcome)
    requires StateKey(state) in sessions || !IsInheritedKey(StateKey(state))
    ensures HandleCallbackAsWritten(sessions, users, code, state, exchange, whoami)
         == HandleCallback(sessions, users, code, state, exchange, whoami)
  {
    TakeVerifierAgreesOffInheritedKeys(sessions, code, state);
  }

  /** As written, a callback with `state=toString`, which was never issued,
      passes the check and sends a built-in function's text to the token
      endpoint as the code verifier; the endpoint refuses it (it matches no
      challenge) and the callback ends in a 500 instead of a 400. The intended
      lookup refuses it with a 400. */
  lemma InheritedStateEndsInServerError(sessions: SessionStore, users: UserStore, code: string,
                                        exchange: (string, string) -> ExchangeOutcome, whoami: string -> IdentityOutcome)
    requires OnlyIssuedStates(sessions) && code != ""
    requires exchange(code, InheritedText("toString")).ExchangeFailed?
    ensures HandleCallbackAsWritten(sessions, users, Some(code), Some("toString"), exchange, whoami)
      == CallbackResult(AuthenticationError, sessions, users)
    ensures HandleCallback(sessions, users, Some(code), Some("toString"), exchange, whoami)
      == CallbackResult(InvalidLoginRequest, sessions, users)
  {
    InheritedStateIsAccepted(sessions, code);
  }

  /** With the intended lookup, a callback whose `state` was never issued
      (or was already used) is refused and creates or updates no user. */
  lemma UnknownStateChangesNothing(sessions: SessionStore, users: UserStore, code: Option<string>, state: Option<string>,
                                   exchange: (string, string) -> ExchangeOutcome, whoami: string -> IdentityOutcome)
    requires StateKey(state) !in sessions
    ensures HandleCallback(sessions, users, code, state, exchange, whoami) == CallbackResult(InvalidLoginRequest, sessions, users)
  {
  }

  /** Replaying a callback after it was handled is refused. */
  lemma ReplayedCallbackRejected(sessions: SessionStore, users: UserStore, code: Option<string>, state: Option<string>,
                                 exchange: (string, string) -> ExchangeOutcome, whoami: string -> IdentityOutcome)
    requires !HandleCallback(sessions, users, code, state, exchange, whoami).response.InvalidLoginRequest?
    ensures
      var first := HandleCallback(sessions, users, code, state, exchange, whoami);
      HandleCallback(first.sessions, first.users, code, state, exchange, whoami).response.InvalidLoginRequest?
  {
  }

  /** After a successful login the profile lookup for the returned id shows
      the identity that logged in, and no token. */
  lemma ProfileAfterLogin(sessions: SessionStore, users: UserStore, code: Option<string>, state: Option<string>,
                          exchange: (string, string) -> ExchangeOutcome, whoami: string -> IdentityOutcome)
    requires HandleCallback(sessions, users, code, state, exchange, whoami).response.RedirectWithUser?
    ensures
      var r := HandleCallback(sessions, users, code, state, exchange, whoami);
      var who := whoami(exchange(code.value, sessions[StateKey(state)]).accessToken);
      PublicProfile(r.users, r.response.id) == Some(PublicUser(r.response.id, who.airtableUserId, who.email))
  {
  }
}
