/** `getAirtableToken`: returns an access token for a user, probing it
    against the identity endpoint first and refreshing it on a 401. The two
    upstream calls are foreign I/O, so their outcomes are parameters. */
module TokenBroker {
  import opened Common
  import opened UserModel

  /** Outcome of the identity probe made with the stored access token. */
  datatype ProbeOutcome =
    | ProbeOk
    | ProbeRejected(status: int)   // an HTTP error response
    | ProbeUnreachable             // no response at all

  /** Outcome of the refresh-token exchange at the token endpoint. */
  datatype RefreshOutcome =
    | RefreshGranted(accessToken: string)
    | RefreshDenied

  datatype TokenError =
    | UserNotFound
    | CouldNotRefresh
    | UpstreamFailure(probe: ProbeOutcome)

  const Unauthorized: int := 401

  /** The token handed to the caller and the user collection afterwards. */
  datatype TokenAnswer = TokenAnswer(token: Result<string, TokenError>, store: UserStore)

  /** The refresh decision. A refresh that yields no access token fails the
      `required` validation of the save and so counts as a failed refresh. */
  function GetAirtableToken(s: UserStore, userId: nat, probe: ProbeOutcome, refresh: RefreshOutcome): (r: TokenAnswer)
    ensures |r.store| == |s|
    ensures r.token == Failure(UserNotFound) <==> userId >= |s|
    ensures forall i :: 0 <= i < |s| && i != userId ==> r.store[i] == s[i]
    ensures forall i :: 0 <= i < |s| ==>
      && r.store[i].refreshToken == s[i].refreshToken
      && r.store[i].airtableUserId == s[i].airtableUserId
      && r.store[i].email == s[i].email
    ensures r.token.Success? ==> userId < |s| && r.store[userId].accessToken == r.token.value
    ensures r.store != s ==> probe == ProbeRejected(Unauthorized) && refresh.RefreshGranted?
    ensures userId < |s| && probe == ProbeOk ==> r == TokenAnswer(Success(s[userId].accessToken), s)
    ensures userId < |s| && probe != ProbeOk && probe != ProbeRejected(Unauthorized) ==>
      r == TokenAnswer(Failure(UpstreamFailure(probe)), s)
    ensures r.token == Failure(CouldNotRefresh) ==> probe == ProbeRejected(Unauthorized) && r.store == s
    ensures userId < |s| && probe == ProbeRejected(Unauthorized) ==>
      if refresh.RefreshGranted? && refresh.accessToken != "" then
        r == TokenAnswer(Success(refresh.accessToken), s[userId := s[userId].(accessToken := refresh.accessToken)])
      else
        r == TokenAnswer(Failure(CouldNotRefresh), s)
  {
    if userId >= |s| then TokenAnswer(Failure(UserNotFound), s)
    else
      var user := s[userId];
      match probe
      case ProbeOk => TokenAnswer(Success(user.accessToken), s)
      case ProbeRejected(status) =>
        if status != Unauthorized then TokenAnswer(Failure(UpstreamFailure(probe)), s)
        else (
          match refresh
          case RefreshGranted(t) =>
            if t == "" then TokenAnswer(Failure(CouldNotRefresh), s)
            else TokenAnswer(Success(t), s[userId := user.(accessToken := t)])
          case RefreshDenied => TokenAnswer(Failure(CouldNotRefresh), s))
      case ProbeUnreachable => TokenAnswer(Failure(UpstreamFailure(probe)), s)
  }

  /** Looking up a token never breaks the collection's invariant. */
  lemma TokenLookupPreservesInvariant(s: UserStore, userId: nat, probe: ProbeOutcome, refresh: RefreshOutcome)
    requires StoreInvariant(s)
    ensures StoreInvariant(GetAirtableToken(s, userId, probe, refresh).store)
  {
    var s' := GetAirtableToken(s, userId, probe, refresh).store;
    assert forall i :: 0 <= i < |s| ==> s'[i].airtableUserId == s[i].airtableUserId && s'[i].email == s[i].email;
  }

  /** An expired token whose refresh is refused, or yields no token, is never
      handed out: the lookup fails and nothing is written. */
  lemma FailedRefreshIsAnError(s: UserStore, userId: nat, refresh: RefreshOutcome)
    requires userId < |s|
    requires refresh == RefreshDenied || refresh == RefreshGranted("")
    ensures GetAirtableToken(s, userId, ProbeRejected(Unauthorized), refresh) == TokenAnswer(Failure(CouldNotRefresh), s)
  {
  }

  /** A successful refresh of an expired token replaces only the access token,
      and the next lookup whose probe passes hands out the refreshed one. */
  lemma RefreshThenReuse(s: UserStore, userId: nat, t: string)
    requires userId < |s| && t != ""
    ensures
      var a := GetAirtableToken(s, userId, ProbeRejected(Unauthorized), RefreshGranted(t));
      && a.token == Success(t)
      && a.store[userId] == s[userId].(accessToken := t)
      && GetAirtableToken(a.store, userId, ProbeOk, RefreshDenied).token == Success(t)
  {
  }
}
