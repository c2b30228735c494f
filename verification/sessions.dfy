/** The PKCE login attempt: the start route generates a `state` and a code
    verifier, remembers `state -> codeVerifier` in a process-wide map, and
    the callback route takes the verifier out again. Random bytes and the
    SHA-256 digest are parameters. The map is a plain JavaScript object, so
    its lookup also finds the properties every object inherits. */
module Sessions {
  import opened Common
  import opened Encoding

  /** The pending attempts, keyed by `state`. */
  type SessionStore = map<string, string>

  /** A SHA-256 digest is 32 bytes. */
  type Digest = d: seq<Byte> | |d| == 32 witness seq(32, _ => 0)

  /** What the start route produces for one attempt. */
  datatype Attempt = Attempt(state: string, codeVerifier: string, codeChallenge: string)

  /** A `state` as generated: 32 lower-case hex digits. */
  predicate IsIssuedState(k: string) {
    |k| == 32 && forall i :: 0 <= i < |k| ==> ('0' <= k[i] <= '9') || ('a' <= k[i] <= 'f')
  }

  /** Every pending key was generated by the start route. */
  predicate OnlyIssuedStates(store: SessionStore) {
    forall k :: k in store ==> IsIssuedState(k)
  }

  /** `GET /api/auth/airtable`: `state` is the hex of 16 random bytes, the
      verifier the base64url of 32 random bytes, the challenge the base64url
      of the verifier's digest (method S256); the attempt is remembered. */
  function BeginLogin(store: SessionStore, stateBytes: seq<Byte>, verifierBytes: seq<Byte>, sha256: string -> Digest)
    : (r: (SessionStore, Attempt))
    requires |stateBytes| == 16 && |verifierBytes| == 32
    ensures r.1.state == Hex(stateBytes) && r.1.codeVerifier == Base64Url(verifierBytes)
    ensures r.0 == store[r.1.state := r.1.codeVerifier]
    ensures IsIssuedState(r.1.state)
    ensures ValidCodeVerifier(r.1.codeVerifier)
    ensures r.1.codeChallenge == Base64Url(sha256(r.1.codeVerifier)) && |r.1.codeChallenge| == 43
  {
    var state := Hex(stateBytes);
    var verifier := Base64Url(verifierBytes);
    Base64UrlOf32BytesIsVerifier(verifierBytes);
    (store[state := verifier], Attempt(state, verifier, Base64Url(sha256(verifier))))
  }

  /** The key a `state` query parameter looks up: JavaScript coerces a
      missing one to the text "undefined". */
  function StateKey(state: Option<string>): string {
    state.GetOr("undefined")
  }

  /** The callback's first step: the attempt's verifier and the map without it. */
  datatype CallbackCheck = Rejected | Accepted(codeVerifier: string, rest: SessionStore)

  /** The text the inherited value of `k` becomes when it is sent as a form
      parameter: the prototype object itself for `__proto__`, otherwise a
      built-in function (as V8 prints it). */
  function InheritedText(k: string): string {
    if k == "__proto__" then "[object Object]"
    else if k == "constructor" then "function Object() { [native code] }"
    else "function " + k + "() { [native code] }"
  }

  /** The callback's first step as written: `sessionStore[state]` finds an own
      entry or an inherited property; either is truthy and passes the check,
      and `delete` removes only an own entry. */
  function TakeVerifierAsWritten(store: SessionStore, code: Option<string>, state: Option<string>): (r: CallbackCheck)
    ensures r.Rejected? <==>
      || !Truthy(code)
      || (StateKey(state) in store && store[StateKey(state)] == "")
      || (StateKey(state) !in store && !IsInheritedKey(StateKey(state)))
    ensures r.Accepted? ==> r.rest == store - {StateKey(state)}
    ensures r.Accepted? && StateKey(state) in store ==> r.codeVerifier == store[StateKey(state)]
    ensures r.Accepted? && StateKey(state) !in store ==> r.codeVerifier == InheritedText(StateKey(state)) && r.rest == store
  {
    var key := StateKey(state);
    if !Truthy(code) then Rejected
    else if key in store then (if store[key] != "" then Accepted(store[key], store - {key}) else Rejected)
    else if IsInheritedKey(key) then Accepted(InheritedText(key), store)
    else Rejected
  }

  /** The callback's first step as intended: only an attempt this map holds
      is accepted. Refuses a callback without `code` or whose `state` has no
      (non-empty) verifier, leaving the map alone; otherwise deletes the
      entry. */
  function TakeVerifier(store: SessionStore, code: Option<string>, state: Option<string>): (r: CallbackCheck)
    ensures r.Rejected? <==> !Truthy(code) || StateKey(state) !in store || store[StateKey(state)] == ""
    ensures r.Accepted? ==>
      && r.codeVerifier == store[StateKey(state)]
      && StateKey(state) !in r.rest
      && r.rest.Keys == store.Keys - {StateKey(state)}
      && forall k :: k in r.rest ==> r.rest[k] == store[k]
  {
    var key := StateKey(state);
    if key in store && store[key] != "" && Truthy(code) then Accepted(store[key], store - {key})
    else Rejected
  }

  /** The two lookups differ only on an inherited name the map does not hold. */
  lemma TakeVerifierAgreesOffInheritedKeys(store: SessionStore, code: Option<string>, state: Option<string>)
    requires StateKey(state) in store || !IsInheritedKey(StateKey(state))
    ensures TakeVerifierAsWritten(store, code, state) == TakeVerifier(store, code, state)
  {
  }

  /** As written, a callback whose `state` is `toString`, never issued, is
      accepted with a built-in function's text as its verifier, and nothing is
      removed; the intended lookup refuses it. */
  lemma InheritedStateIsAccepted(store: SessionStore, code: string)
    requires OnlyIssuedStates(store) && code != ""
    ensures TakeVerifierAsWritten(store, Some(code), Some("toString"))
      == Accepted("function toString() { [native code] }", store)
    ensures TakeVerifier(store, Some(code), Some("toString")) == Rejected
  {
    assert !IsIssuedState("toString");
  }

  /** Each attempt is served once: replaying the same `state` is refused. */
  lemma CallbackIsSingleUse(store: SessionStore, code: Option<string>, state: Option<string>, code2: Option<string>)
    requires TakeVerifier(store, code, state).Accepted?
    ensures TakeVerifier(TakeVerifier(store, code, state).rest, code2, state).Rejected?
  {
  }

  /** A callback carrying the `state` of a fresh login gets that login's
      verifier, and the map returns to what it was before the login. */
  lemma LoginRoundTrip(store: SessionStore, stateBytes: seq<Byte>, verifierBytes: seq<Byte>,
                       sha256: string -> Digest, code: string)
    requires |stateBytes| == 16 && |verifierBytes| == 32
    requires code != ""
    requires Hex(stateBytes) !in store
    ensures
      var (store', attempt) := BeginLogin(store, stateBytes, verifierBytes, sha256);
      TakeVerifier(store', Some(code), Some(attempt.state)) == Accepted(attempt.codeVerifier, store)
  {
    var (store', attempt) := BeginLogin(store, stateBytes, verifierBytes, sha256);
    assert store' - {attempt.state} == store;
  }

  /** Two logins started from different random state bytes get different
      `state` values, so neither can overwrite the other's pending entry. */
  lemma DistinctBytesGiveDistinctStates(store: SessionStore, stateBytes: seq<Byte>, verifierBytes: seq<Byte>,
                                        store2: SessionStore, stateBytes2: seq<Byte>, verifierBytes2: seq<Byte>,
                                        sha256: string -> Digest)
    requires |stateBytes| == 16 && |verifierBytes| == 32
    requires |stateBytes2| == 16 && |verifierBytes2| == 32
    requires stateBytes != stateBytes2
    ensures BeginLogin(store, stateBytes, verifierBytes, sha256).1.state
         != BeginLogin(store2, stateBytes2, verifierBytes2, sha256).1.state
  {
    if Hex(stateBytes) == Hex(stateBytes2) {
      HexInjective(stateBytes, stateBytes2);
    }
  }

  /** Starting a login keeps every pending key a generated one. */
  lemma BeginLoginKeepsIssuedStates(store: SessionStore, stateBytes: seq<Byte>, verifierBytes: seq<Byte>,
                                    sha256: string -> Digest)
    requires |stateBytes| == 16 && |verifierBytes| == 32
    requires OnlyIssuedStates(store)
    ensures OnlyIssuedStates(BeginLogin(store, stateBytes, verifierBytes, sha256).0)
  {
  }

  /** A callback without `state` can never take a generated attempt, because
      "undefined" is not a hex string. */
  lemma MissingStateIsRejected(store: SessionStore, code: Option<string>)
    requires OnlyIssuedStates(store)
    ensures TakeVerifier(store, code, None).Rejected?
  {
    assert !IsIssuedState("undefined") by {
      assert "undefined"[0] == 'u';
    }
  }
}
