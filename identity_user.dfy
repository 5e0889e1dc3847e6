/**
 * The user aggregate: profile and credential fields, the lockout and phone
 * sub-records, and three collections (external logins, tokens, role names)
 * whose add and remove operations check for null arguments and, for logins
 * and tokens, for a repeated composite key. The raw collection setters
 * append without any check, so distinct keys are preserved by the guarded
 * operations only; every guarded operation's contract says so conditionally.
 */
module IdentityUser {
  import opened Wrappers
  import opened KeyedList
  import opened IdentityRecords

  /** The exceptions the guards raise: `ArgumentNullException`, `InvalidOperationException`. */
  datatype UserError = ArgumentNull | AlreadyExists

  /** How a guarded operation ends: normally, or by raising one of the errors. */
  datatype Outcome = Done | Failed(error: UserError)

  /** `string.IsNullOrEmpty`: a role name is accepted only when it is present and has a character. */
  predicate IsNullOrEmpty(s: Option<string>)
    ensures !IsNullOrEmpty(s) <==> s.Some? && |s.value| > 0
  {
    s.None? || s.value == ""
  }

  class CassandraIdentityUser {
    // The partition key of the stored row.
    var id: Guid

    var userName: Option<string>
    var normalizedUserName: Option<string>
    var normalizedEmail: Option<string>
    var email: Option<string>
    var emailConfirmationTime: Option<Timestamp>
    var passwordHash: Option<string>
    var twoFactorEnabled: bool
    var securityStamp: Option<string>

    // Stored frozen: each is written and read as one value.
    var lockout: Option<LockoutInfo>
    var phone: Option<PhoneInfo>

    // The private lists behind `Logins`, `Tokens` and `Roles`.
    var logins: seq<LoginInfo>
    var tokens: seq<TokenInfo>
    var roles: seq<string>

    /** Derived, never stored: the email is confirmed exactly when a confirmation time is recorded. */
    function EmailConfirmed(): (confirmed: bool)
      reads this
      ensures confirmed <==> emailConfirmationTime.Some?
    {
      emailConfirmationTime.Some?
    }

    /** A user with the default identifier, no values and empty collections. */
    constructor ()
      ensures id == EmptyGuid
      ensures logins == [] && tokens == [] && roles == []
      ensures userName.None? && normalizedUserName.None? && normalizedEmail.None? && email.None?
      ensures emailConfirmationTime.None? && !EmailConfirmed()
      ensures passwordHash.None? && !twoFactorEnabled && securityStamp.None?
      ensures lockout.None? && phone.None?
    {
      id := EmptyGuid;
      userName, normalizedUserName, normalizedEmail, email := None, None, None, None;
      emailConfirmationTime := None;
      passwordHash, twoFactorEnabled, securityStamp := None, false, None;
      lockout, phone := None, None;
      logins, tokens, roles := [], [], [];
    }

    /** A user with the given identifier, otherwise as the parameterless constructor. */
    constructor WithId(id: Guid)
      ensures this.id == id
      ensures logins == [] && tokens == [] && roles == []
      ensures userName.None? && normalizedUserName.None? && normalizedEmail.None? && email.None?
      ensures emailConfirmationTime.None? && !EmailConfirmed()
      ensures passwordHash.None? && !twoFactorEnabled && securityStamp.None?
      ensures lockout.None? && phone.None?
    {
      this.id := id;
      userName, normalizedUserName, normalizedEmail, email := None, None, None, None;
      emailConfirmationTime := None;
      passwordHash, twoFactorEnabled, securityStamp := None, false, None;
      lockout, phone := None, None;
      logins, tokens, roles := [], [], [];
    }

    /** The `Logins` setter: appends every given login, without a duplicate check. */
    method SetLogins(value: Option<seq<LoginInfo>>)
      modifies this`logins
      ensures logins == if value.None? then old(logins) else old(logins) + value.value
    {
      if value.Some? {
        logins := logins + value.value;
      }
    }

    /** The `Tokens` setter: appends every given token, without a duplicate check. */
    method SetTokens(value: Option<seq<TokenInfo>>)
      modifies this`tokens
      ensures tokens == if value.None? then old(tokens) else old(tokens) + value.value
    {
      if value.Some? {
        tokens := tokens + value.value;
      }
    }

    /** The `Roles` setter: appends every given role name, without a duplicate check. */
    method SetRoles(value: Option<seq<string>>)
      modifies this`roles
      ensures roles == if value.None? then old(roles) else old(roles) + value.value
    {
      if value.Some? {
        roles := roles + value.value;
      }
    }

    /**
     * Drops the lockout and phone sub-records that are present with every
     * field at its default; nothing else changes, and a second call would
     * change nothing.
     */
    method CleanUp()
      modifies this`lockout, this`phone
      ensures lockout == Collapse(old(lockout), LockoutAllDefault)
      ensures phone == Collapse(old(phone), PhoneAllDefault)
      ensures lockout.None? <==> old(lockout).None? || LockoutAllDefault(old(lockout).value)
      ensures phone.None? <==> old(phone).None? || PhoneAllDefault(old(phone).value)
      ensures Collapse(lockout, LockoutAllDefault) == lockout
      ensures Collapse(phone, PhoneAllDefault) == phone
    {
      if lockout.Some? && LockoutAllDefault(lockout.value) {
        lockout := None;
      }
      if phone.Some? && PhoneAllDefault(phone.value) {
        phone := None;
      }
    }

    /**
     * Appends a login unless it is null or a login with the same provider and
     * provider key is already present; a failed call changes nothing.
     */
    method AddLogin(login: Option<LoginInfo>) returns (outcome: Outcome)
      modifies this`logins
      ensures outcome == if login.None? then Failed(ArgumentNull)
                         else if HasKey(old(logins), LoginKey, LoginKey(login.value)) then Failed(AlreadyExists)
                         else Done
      ensures logins == if outcome.Done? then old(logins) + [login.value] else old(logins)
      ensures KeysDistinct(old(logins), LoginKey) ==> KeysDistinct(logins, LoginKey)
      ensures login.Some? ==> HasKey(logins, LoginKey, LoginKey(login.value))
    {
      if login.None? {
        return Failed(ArgumentNull);
      }
      if HasKey(logins, LoginKey, LoginKey(login.value)) {
        return Failed(AlreadyExists);
      }
      ghost var before := logins;
      if KeysDistinct(before, LoginKey) {
        AppendKeepsDistinct(before, LoginKey, login.value);
      }
      logins := logins + [login.value];
      assert LoginKey(logins[|before|]) == LoginKey(login.value);
      return Done;
    }

    /**
     * Removes the first login with the given provider and provider key, if
     * there is one; an absent pair is no error and changes nothing.
     */
    method RemoveLogin(loginProvider: Option<string>, providerKey: Option<string>)
      modifies this`logins
      ensures logins == RemoveFirst(old(logins), LoginKey, (loginProvider, providerKey))
      ensures !HasKey(old(logins), LoginKey, (loginProvider, providerKey)) ==> logins == old(logins)
      ensures KeysDistinct(old(logins), LoginKey) ==>
                KeysDistinct(logins, LoginKey) && !HasKey(logins, LoginKey, (loginProvider, providerKey))
    {
      ghost var before := logins;
      if KeysDistinct(before, LoginKey) {
        RemoveFirstKeepsDistinct(before, LoginKey, (loginProvider, providerKey));
      }
      var found := FirstIndex(logins, LoginKey, (loginProvider, providerKey));
      if found.None? {
        return;
      }
      logins := RemoveAt(logins, found.value);
    }

    /**
     * Appends a token unless it is null or a token with the same provider and
     * name is already present; a failed call changes nothing.
     */
    method AddToken(token: Option<TokenInfo>) returns (outcome: Outcome)
      modifies this`tokens
      ensures outcome == if token.None? then Failed(ArgumentNull)
                         else if HasKey(old(tokens), TokenKey, TokenKey(token.value)) then Failed(AlreadyExists)
                         else Done
      ensures tokens == if outcome.Done? then old(tokens) + [token.value] else old(tokens)
      ensures KeysDistinct(old(tokens), TokenKey) ==> KeysDistinct(tokens, TokenKey)
      ensures token.Some? ==> HasKey(tokens, TokenKey, TokenKey(token.value))
    {
      if token.None? {
        return Failed(ArgumentNull);
      }
      if HasKey(tokens, TokenKey, TokenKey(token.value)) {
        return Failed(AlreadyExists);
      }
      ghost var before := tokens;
      if KeysDistinct(before, TokenKey) {
        AppendKeepsDistinct(before, TokenKey, token.value);
      }
      tokens := tokens + [token.value];
      assert TokenKey(tokens[|before|]) == TokenKey(token.value);
      return Done;
    }

    /**
     * Removes the first token with the given provider and name, if there is
     * one; an absent pair is no error and changes nothing.
     */
    method RemoveToken(loginProvider: Option<string>, name: Option<string>)
      modifies this`tokens
      ensures tokens == RemoveFirst(old(tokens), TokenKey, (loginProvider, name))
      ensures !HasKey(old(tokens), TokenKey, (loginProvider, name)) ==> tokens == old(tokens)
      ensures KeysDistinct(old(tokens), TokenKey) ==>
                KeysDistinct(tokens, TokenKey) && !HasKey(tokens, TokenKey, (loginProvider, name))
    {
      ghost var before := tokens;
      if KeysDistinct(before, TokenKey) {
        RemoveFirstKeepsDistinct(before, TokenKey, (loginProvider, name));
      }
      var found := FirstIndex(tokens, TokenKey, (loginProvider, name));
      if found.None? {
        return;
      }
      tokens := RemoveAt(tokens, found.value);
    }

    /**
     * Rejects a null or empty role name; otherwise appends the role unless it
     * is already present, which is no error.
     */
    method AddRole(role: Option<string>) returns (outcome: Outcome)
      modifies this`roles
      ensures outcome == if IsNullOrEmpty(role) then Failed(ArgumentNull) else Done
      ensures roles == if outcome.Failed? || role.value in old(roles) then old(roles)
                       else old(roles) + [role.value]
      ensures outcome.Done? ==> role.value in roles
      ensures KeysDistinct(old(roles), Itself) ==> KeysDistinct(roles, Itself)
    {
      if IsNullOrEmpty(role) {
        return Failed(ArgumentNull);
      }
      if role.value !in roles {
        ghost var before := roles;
        HasKeyItself(before, role.value);
        if KeysDistinct(before, Itself) {
          AppendKeepsDistinct(before, Itself, role.value);
        }
        roles := roles + [role.value];
      }
      return Done;
    }

    /**
     * Rejects a null or empty role name; otherwise removes the first
     * occurrence of the role, if any; an absent role is no error.
     */
    method RemoveRole(role: Option<string>) returns (outcome: Outcome)
      modifies this`roles
      ensures outcome == if IsNullOrEmpty(role) then Failed(ArgumentNull) else Done
      ensures roles == if outcome.Failed? then old(roles) else RemoveFirst(old(roles), Itself, role.value)
      ensures outcome.Done? && role.value !in old(roles) ==> roles == old(roles)
      ensures outcome.Done? && KeysDistinct(old(roles), Itself) ==>
                KeysDistinct(roles, Itself) && role.value !in roles &&
                forall i :: 0 <= i < |old(roles)| && old(roles)[i] != role.value ==> old(roles)[i] in roles
    {
      if IsNullOrEmpty(role) {
        return Failed(ArgumentNull);
      }
      ghost var before := roles;
      HasKeyItself(before, role.value);
      if KeysDistinct(before, Itself) {
        RemoveFirstKeepsDistinct(before, Itself, role.value);
        HasKeyItself(RemoveFirst(before, Itself, role.value), role.value);
      }
      if role.value in roles {
        var found := FirstIndex(roles, Itself, role.value);
        roles := RemoveAt(roles, found.value);
      }
      return Done;
    }
  }

  /**
   * The setters bypass the guards: appending an element whose key is already
   * present, which `AddLogin` and `AddToken` refuse with `AlreadyExists`,
   * always leaves a repeated key behind.
   */
  lemma SetterRepeatsPresentKey<T, K>(s: seq<T>, key: T -> K, x: T)
    requires HasKey(s, key, key(x))
    ensures !KeysDistinct(s + [x], key)
  {
    var i :| 0 <= i < |s| && key(s[i]) == key(x);
    assert (s + [x])[i] == s[i] && (s + [x])[|s|] == x;
  }
}
