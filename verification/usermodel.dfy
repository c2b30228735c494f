/** The user collection: one record per Airtable account holding its token
    pair. A user's `_id` is modelled as its index in the collection. */
module UserModel {
  import opened Common

  datatype User = User(airtableUserId: string, email: string, accessToken: string, refreshToken: string)

  type UserStore = seq<User>

  /** Every path of the user schema is `required`: present and non-empty. */
  predicate ValidUser(u: User) {
    u.airtableUserId != "" && u.email != "" && u.accessToken != "" && u.refreshToken != ""
  }

  /** The `unique` index on `airtableUserId`. */
  predicate UniqueAirtableIds(s: UserStore) {
    forall i, j :: 0 <= i < j < |s| ==> s[i].airtableUserId != s[j].airtableUserId
  }

  /** The `unique` index on `email`. */
  predicate UniqueEmails(s: UserStore) {
    forall i, j :: 0 <= i < j < |s| ==> s[i].email != s[j].email
  }

  /** What the schema and its indexes promise of every stored collection. */
  predicate StoreInvariant(s: UserStore) {
    && (forall i :: 0 <= i < |s| ==> ValidUser(s[i]))
    && UniqueAirtableIds(s)
    && UniqueEmails(s)
  }

  /** The first user with the given Airtable id, if any. */
  function FindByAirtableId(s: UserStore, airtableUserId: string): (r: Option<nat>)
    ensures r.None? <==> forall i :: 0 <= i < |s| ==> s[i].airtableUserId != airtableUserId
    ensures r.Some? ==> r.value < |s| && s[r.value].airtableUserId == airtableUserId
    ensures r.Some? ==> forall i :: 0 <= i < r.value ==> s[i].airtableUserId != airtableUserId
  {
    if s == [] then None
    else if s[0].airtableUserId == airtableUserId then Some(0)
    else
      var rest := FindByAirtableId(s[1..], airtableUserId);
      if rest.Some? then Some(rest.value + 1)
      else
        assert forall i :: 1 <= i < |s| ==> s[i] == s[1..][i - 1];
        None
  }

  /** Some user other than the one at index `except` has this email. */
  predicate EmailTakenByOther(s: UserStore, email: string, except: int) {
    exists j :: 0 <= j < |s| && j != except && s[j].email == email
  }

  /** The unique email index refuses a write. */
  datatype UpsertError = DuplicateEmail

  /** `findOneAndUpdate({airtableUserId}, {email, accessToken, refreshToken},
      {upsert: true})`: updates the user with that Airtable id, or inserts one
      at the end; either way returns the user's index. Neither path runs the
      `required` validators; only the unique indexes apply. */
  function Upsert(s: UserStore, airtableUserId: string, email: string, accessToken: string, refreshToken: string)
    : (r: Result<(UserStore, nat), UpsertError>)
    ensures r.Failure? <==>
      EmailTakenByOther(s, email, match FindByAirtableId(s, airtableUserId) case Some(i) => i case None => -1)
    ensures r.Success? ==>
      var s', id := r.value.0, r.value.1;
      && |s| <= |s'| && id < |s'|
      && s'[id] == User(airtableUserId, email, accessToken, refreshToken)
      && (forall j :: 0 <= j < |s| && j != id ==> s'[j] == s[j])
      && (FindByAirtableId(s, airtableUserId).Some? ==> |s'| == |s| && id == FindByAirtableId(s, airtableUserId).value)
      && (FindByAirtableId(s, airtableUserId).None? ==> |s'| == |s| + 1 && id == |s|)
  {
    match FindByAirtableId(s, airtableUserId)
    case Some(i) =>
      if EmailTakenByOther(s, email, i) then Failure(DuplicateEmail)
      else Success((s[i := User(airtableUserId, email, accessToken, refreshToken)], i))
    case None =>
      if EmailTakenByOther(s, email, -1) then Failure(DuplicateEmail)
      else Success((s + [User(airtableUserId, email, accessToken, refreshToken)], |s|))
  }

  /** An upsert with non-empty values keeps the schema's promises: required
      paths filled, at most one user per Airtable id and per email. */
  lemma UpsertPreservesInvariant(s: UserStore, airtableUserId: string, email: string, accessToken: string, refreshToken: string)
    requires StoreInvariant(s)
    requires ValidUser(User(airtableUserId, email, accessToken, refreshToken))
    requires Upsert(s, airtableUserId, email, accessToken, refreshToken).Success?
    ensures StoreInvariant(Upsert(s, airtableUserId, email, accessToken, refreshToken).value.0)
  {
    var (s', id) := Upsert(s, airtableUserId, email, accessToken, refreshToken).value;
    var f := FindByAirtableId(s, airtableUserId);
    forall i, j | 0 <= i < j < |s'|
      ensures s'[i].airtableUserId != s'[j].airtableUserId && s'[i].email != s'[j].email
    {
      if i == id {
        assert s'[j] == s[j];
      } else if j == id {
        assert s'[i] == s[i];
      } else {
        assert s'[i] == s[i] && s'[j] == s[j];
      }
    }
  }

  /** Repeating an upsert with the same values changes nothing further. */
  lemma UpsertIdempotent(s: UserStore, airtableUserId: string, email: string, accessToken: string, refreshToken: string)
    requires Upsert(s, airtableUserId, email, accessToken, refreshToken).Success?
    ensures
      var (s', id) := Upsert(s, airtableUserId, email, accessToken, refreshToken).value;
      Upsert(s', airtableUserId, email, accessToken, refreshToken) == Success((s', id))
  {
    var (s', id) := Upsert(s, airtableUserId, email, accessToken, refreshToken).value;
    var f := FindByAirtableId(s', airtableUserId);
    assert f == Some(id);
    assert !EmailTakenByOther(s', email, id);
    assert s'[id := User(airtableUserId, email, accessToken, refreshToken)] == s';
  }

  /** The response of `GET /api/users/:id`: the user without its token fields. */
  datatype PublicUser = PublicUser(id: nat, airtableUserId: string, email: string)

  /** `findById(id).select('-accessToken -refreshToken')`; `None` is the 404. */
  function PublicProfile(s: UserStore, id: nat): (r: Option<PublicUser>)
    ensures r.Some? <==> id < |s|
    ensures r.Some? ==> r.value.id == id && r.value.airtableUserId == s[id].airtableUserId && r.value.email == s[id].email
  {
    if id < |s| then Some(PublicUser(id, s[id].airtableUserId, s[id].email)) else None
  }

  /** The profile response does not depend on the stored tokens: two
      collections that differ only in token fields answer alike. */
  lemma ProfileIgnoresTokens(s1: UserStore, s2: UserStore, id: nat)
    requires |s1| == |s2|
    requires forall i :: 0 <= i < |s1| ==>
      s1[i].airtableUserId == s2[i].airtableUserId && s1[i].email == s2[i].email
    ensures PublicProfile(s1, id) == PublicProfile(s2, id)
  {
  }

  /** After an upsert the user's profile shows the values just written. */
  lemma ProfileAfterUpsert(s: UserStore, airtableUserId: string, email: string, accessToken: string, refreshToken: string)
    requires Upsert(s, airtableUserId, email, accessToken, refreshToken).Success?
    ensures
      var (s', id) := Upsert(s, airtableUserId, email, accessToken, refreshToken).value;
      PublicProfile(s', id) == Some(PublicUser(id, airtableUserId, email))
  {
  }
}
