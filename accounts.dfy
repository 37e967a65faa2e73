/**
 * The pure rules of the auth controller: which new password an account
 * update hashes, and what an `UPDATE users ... WHERE user_id = $old`
 * statement does to the users table.
 */
module Accounts {
  import opened Text
  import opened Schema
  import opened Password

  const FIELDS_REQUIRED: string := "All fields are required"
  const USER_ID_TAKEN: string := "User ID already exists"
  const USER_CREATED: string := "User created successfully"
  const CREDENTIALS_REQUIRED: string := "User ID and password are required"
  const LOGIN_OK: string := "Login successful"
  const LOGOUT_OK: string := "Logout successful"
  const USER_ID_REQUIRED: string := "User ID is required"
  const ACCOUNT_UPDATED: string := "Account updated successfully"
  const ACCOUNT_UPDATE_ERROR: string := "Server error updating account"

  /** Every row of the users table is stored under its own user_id, the table's key. */
  ghost predicate UsersTable(users: map<string, UserRow>) {
    forall k :: k in users ==> users[k].userId == k
  }

  /**
   * The hash an account update writes: present exactly when the submitted
   * password is truthy and not blank, and then the hash of its trimmed value.
   */
  function NewPasswordHash(password: Field): (h: Option<string>)
    ensures h.Some? <==> password.Some? && !AllWhitespace(password.value)
    ensures h.Some? ==> Compare(Trim(password.value), h.value)
  {
    match password
    case None => None
    case Some(p) =>
      TrimSpec(p);
      if Truthy(password) && |Trim(p)| > 0 then Some(Hash(Trim(p))) else None
  }

  /**
   * `UPDATE users SET user_id = newId [, password = newHash] WHERE user_id = whereId`.
   * None when the store refuses the statement because two rows would share a
   * user_id; the statement itself does not look for that. When no row has
   * `whereId` nothing changes. Otherwise that one row moves to `newId` keeping
   * its name, every other row stays as it was and the row count is unchanged.
   */
  function UpdateUserRow(users: map<string, UserRow>, whereId: string, newId: string, newHash: Option<string>)
    : (r: Option<map<string, UserRow>>)
    ensures r.None? <==> whereId in users && newId != whereId && newId in users
    ensures whereId !in users ==> r == Some(users)
    ensures r.Some? ==> |r.value| == |users|
    ensures r.Some? ==> forall k :: k != whereId && k != newId ==>
      (k in r.value <==> k in users) && (k in users ==> r.value[k] == users[k])
    ensures r.Some? && whereId in users ==>
      && newId in r.value
      && (newId != whereId ==> whereId !in r.value)
      && r.value[newId].name == users[whereId].name
      && r.value[newId].userId == newId
      && r.value[newId].password == (if newHash.Some? then newHash.value else users[whereId].password)
    ensures r.Some? && UsersTable(users) ==> UsersTable(r.value)
  {
    if whereId !in users then Some(users)
    else if newId != whereId && newId in users then None
    else
      var row := users[whereId];
      var password := if newHash.Some? then newHash.value else row.password;
      var rest := users - {whereId};
      assert rest.Keys == users.Keys - {whereId};
      assert newId !in rest;
      Some(rest[newId := row.(userId := newId, password := password)])
  }
}
