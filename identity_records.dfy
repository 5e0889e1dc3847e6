/**
 * The value records a user holds: the external login and token
 * descriptors and the lockout and phone sub-records, which are stored as
 * frozen (written-as-one) blobs and collapse to null when every field is
 * at its default.
 */
module IdentityRecords {
  import opened Wrappers

  /** A .NET `DateTimeOffset`; only its identity matters here. */
  type Timestamp(==)

  /** A .NET `Guid`: 128 bits; `default(Guid)` is all zeros. */
  datatype Guid = Guid(bits: bv128)

  const EmptyGuid: Guid := Guid(0)

  /** An external login: (provider, provider key), with a display name. */
  datatype LoginInfo = LoginInfo(
    loginProvider: Option<string>,
    providerKey: Option<string>,
    providerDisplayName: Option<string>)

  /** A stored token: (provider, name), with its value. */
  datatype TokenInfo = TokenInfo(
    loginProvider: Option<string>,
    name: Option<string>,
    value: Option<string>)

  /** The composite key two logins of one user may not share. */
  function LoginKey(l: LoginInfo): (k: (Option<string>, Option<string>))
  {
    (l.loginProvider, l.providerKey)
  }

  /** The composite key two tokens of one user may not share. */
  function TokenKey(t: TokenInfo): (k: (Option<string>, Option<string>))
  {
    (t.loginProvider, t.name)
  }

  /**
   * Two logins match, in the guard's and the search's sense, exactly when
   * both provider and provider key are equal; the display name plays no part.
   */
  lemma LoginKeyEquality(a: LoginInfo, b: LoginInfo)
    ensures LoginKey(a) == LoginKey(b) <==>
              a.loginProvider == b.loginProvider && a.providerKey == b.providerKey
    ensures LoginKey(a) == LoginKey(a.(providerDisplayName := b.providerDisplayName))
  {
  }

  /**
   * Two tokens match exactly when both provider and name are equal; the
   * token value plays no part.
   */
  lemma TokenKeyEquality(a: TokenInfo, b: TokenInfo)
    ensures TokenKey(a) == TokenKey(b) <==> a.loginProvider == b.loginProvider && a.name == b.name
    ensures TokenKey(a) == TokenKey(a.(value := b.value))
  {
  }

  /** Lockout state: failed-access count, end of the lockout, whether lockout is enabled. */
  datatype LockoutInfo = LockoutInfo(
    accessFailedCount: int,
    endDate: Option<Timestamp>,
    enabled: bool)

  /** Phone state: the number, when it was confirmed, and whether it serves two-factor sign-in. */
  datatype PhoneInfo = PhoneInfo(
    number: Option<string>,
    confirmationTime: Option<Timestamp>,
    twoFactorRelevant: bool)

  /** A lockout record fresh from its parameterless constructor. */
  const DefaultLockout: LockoutInfo := LockoutInfo(0, None, false)

  /** A phone record fresh from its parameterless constructor. */
  const DefaultPhone: PhoneInfo := PhoneInfo(None, None, false)

  /**
   * `LockoutInfo.AllPropertiesAreSetToDefaults`: every field holds its .NET
   * default, so the record carries nothing a fresh one would not.
   */
  predicate LockoutAllDefault(l: LockoutInfo)
    ensures LockoutAllDefault(l) <==> l == DefaultLockout
  {
    l.accessFailedCount == 0 && l.endDate.None? && !l.enabled
  }

  /**
   * `PhoneInfo.AllPropertiesAreSetToDefaults`: every field holds its .NET
   * default, so the record carries nothing a fresh one would not.
   */
  predicate PhoneAllDefault(p: PhoneInfo)
    ensures PhoneAllDefault(p) <==> p == DefaultPhone
  {
    p.number.None? && p.confirmationTime.None? && !p.twoFactorRelevant
  }

  /**
   * One step of `CleanUp`: a sub-record that is present but all-default
   * becomes null; anything else is kept as it is.
   */
  function Collapse<T>(o: Option<T>, allDefault: T -> bool): (r: Option<T>)
    ensures r.None? <==> o.None? || allDefault(o.value)
    ensures r.Some? ==> r == o && !allDefault(r.value)
  {
    if o.Some? && allDefault(o.value) then None else o
  }

  /** Collapsing twice is collapsing once. */
  lemma CollapseIdempotent<T>(o: Option<T>, allDefault: T -> bool)
    ensures Collapse(Collapse(o, allDefault), allDefault) == Collapse(o, allDefault)
  {
  }
}
