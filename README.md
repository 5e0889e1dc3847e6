# CassandraIdentityUser, modelled in Dafny

This project models the in-memory user aggregate of an ASP.NET Core Identity
store that keeps users in Cassandra. A user record has these parts:

- profile and credential fields;
- two frozen sub-records, lockout state and phone state, each written as one value;
- three collections: external logins, stored tokens and role names.

The aggregate's internal operations guard the collections:

- Adding a login or token fails on a null argument, or when its composite key is
  already present: provider and provider key for a login, provider and name for a
  token. Removing one that is absent is a silent no-op.
- Adding or removing a role rejects a null or empty name. Re-adding a present role
  is a silent no-op.
- `CleanUp` collapses an all-default lockout or phone sub-record to null before storage.
- `EmailConfirmed` is derived from the confirmation time and never stored.

Files:

- `wrappers.dfy`: `Option`, used for every C# value that may be null.
- `keyed_list.dfy`: module `KeyedList`. It models the list searches and removals
  the aggregate uses (LINQ `Any`, `FirstOrDefault`, `List.Remove`, `Contains`) over
  a sequence, with a key projection. It also proves what happens to key
  distinctness when an element is appended or removed.
- `identity_records.dfy`: module `IdentityRecords`. It holds the login, token,
  lockout and phone records, their composite keys, the all-default predicates, and
  `Collapse`, the step `CleanUp` applies to each sub-record.
- `identity_user.dfy`: module `IdentityUser`. It holds the class
  `CassandraIdentityUser`: its fields, both constructors, the three collection
  setters, `CleanUp`, and the six guarded add/remove methods.

The aggregate keeps its keys distinct only through the guarded methods, because
the collection setters append without any check. No class invariant claims
otherwise. Each guarded method states preservation conditionally: "if the keys were
distinct before, they are distinct after". `SetterRepeatsPresentKey` shows that a
setter given an element whose key is already present always breaks distinctness.

A failing guard is modelled as an `Outcome` of `Failed(ArgumentNull)` (the source's
`ArgumentNullException`) or `Failed(AlreadyExists)` (its `InvalidOperationException`).
A failed call leaves the collection unchanged. Each method has a field-granular
`modifies` clause, so every other field keeps its value.

Two points differ from what an identity store is usually expected to do; the model
follows the code in both:

- One might expect re-adding a role to fail, as re-adding a login or a token does.
  The code skips a role that is already present and raises nothing (line 159).
- One might expect a user read back from storage to be rebuilt through the checked
  add operations, so that a corrupted row with a repeated login would raise an error.
  The collection setters the row mapper uses append with `AddRange` and do no check
  (lines 44-70), so such a row is accepted with its repeated entries.

## Model

| member | source | states |
|---|---|---|
| KeyedList.HasKey | src/AspNetCore.Identity.Cassandra/Models/CassandraIdentityUser.cs:111 | The `Any` search: true exactly when the key is among the keys of the list's elements. |
| IdentityRecords.LoginKeyEquality | src/AspNetCore.Identity.Cassandra/Models/CassandraIdentityUser.cs:111 | Two logins match exactly when provider and provider key are both equal, as the guard's lambda and the search at lines 120-121 compare; the display name plays no part. |
| IdentityRecords.TokenKeyEquality | src/AspNetCore.Identity.Cassandra/Models/CassandraIdentityUser.cs:135 | Two tokens match exactly when provider and name are both equal, as the guard's lambda and the search at lines 144-145 compare; the token value plays no part. |
| IdentityRecords.LockoutAllDefault | src/AspNetCore.Identity.Cassandra/Models/CassandraIdentityUser.cs:99 | `AllPropertiesAreSetToDefaults` holds exactly when the lockout record equals a freshly constructed one: zero failures, no end date, lockout disabled. |
| IdentityRecords.PhoneAllDefault | src/AspNetCore.Identity.Cassandra/Models/CassandraIdentityUser.cs:102 | `AllPropertiesAreSetToDefaults` holds exactly when the phone record equals a freshly constructed one: no number, no confirmation time, not used for two-factor sign-in. |
| IdentityUser.IsNullOrEmpty | src/AspNetCore.Identity.Cassandra/Models/CassandraIdentityUser.cs:156 | `string.IsNullOrEmpty`: a name passes the role guards (lines 156 and 165) exactly when it is present and has at least one character. |
| KeyedList.FirstIndex | src/AspNetCore.Identity.Cassandra/Models/CassandraIdentityUser.cs:119-124 | The `FirstOrDefault` search is null exactly when no element has the key. Otherwise it is the index of an element with that key, and no earlier element has it. |
| KeyedList.RemoveFirst | src/AspNetCore.Identity.Cassandra/Models/CassandraIdentityUser.cs:117-128 | Search then `Remove`. With no match the list is unchanged. Otherwise exactly one element goes, and the result is a sub-multiset of the input. |
| KeyedList.RemoveFirstAt | src/AspNetCore.Identity.Cassandra/Models/CassandraIdentityUser.cs:117-128 | Removal drops exactly the first element with the key and keeps the others in their order. The removed element is the only multiset difference. |
| KeyedList.WithoutKey | src/AspNetCore.Identity.Cassandra/Models/CassandraIdentityUser.cs:117-128 | Reference definition of "remove every match". No element of the result has the key, and it keeps exactly the elements whose key differs. |
| KeyedList.RemoveFirstIsWithoutKey | src/AspNetCore.Identity.Cassandra/Models/CassandraIdentityUser.cs:117-128 | On a list with distinct keys, removing the first match is the same as removing every match. |
| KeyedList.RemoveFirstKeepsDistinct | src/AspNetCore.Identity.Cassandra/Models/CassandraIdentityUser.cs:141-152 | On distinct keys, removal keeps the keys distinct and leaves no element with the removed key. Every element with another key remains. |
| KeyedList.RemoveAtKeepsDistinct | src/AspNetCore.Identity.Cassandra/Models/CassandraIdentityUser.cs:127 | Dropping one element from a list with distinct keys leaves them distinct. |
| KeyedList.AppendKeepsDistinct | src/AspNetCore.Identity.Cassandra/Models/CassandraIdentityUser.cs:111-114 | Appending to a list with distinct keys keeps them distinct exactly when the new element's key is absent, in both directions. That is the condition the duplicate guard checks. |
| KeyedList.RemoveFirstAfterAppend | src/AspNetCore.Identity.Cassandra/Models/CassandraIdentityUser.cs:106-128 | A guarded append of a new key, then removal by that key, gives back the original list: remove is the inverse of add. |
| KeyedList.HasKeyItself | src/AspNetCore.Identity.Cassandra/Models/CassandraIdentityUser.cs:159 | With the identity key, the key search is `List.Contains`, that is, membership. |
| IdentityRecords.Collapse | src/AspNetCore.Identity.Cassandra/Models/CassandraIdentityUser.cs:99-100 | The result is null exactly when the sub-record was null or all-default. A present result is the original record, and that record is not all-default. |
| IdentityRecords.CollapseIdempotent | src/AspNetCore.Identity.Cassandra/Models/CassandraIdentityUser.cs:97-104 | Collapsing twice is the same as collapsing once. |
| IdentityUser.CassandraIdentityUser.EmailConfirmed | src/AspNetCore.Identity.Cassandra/Models/CassandraIdentityUser.cs:74 | The email counts as confirmed exactly when a confirmation time is present. |
| IdentityUser.CassandraIdentityUser.constructor | src/AspNetCore.Identity.Cassandra/Models/CassandraIdentityUser.cs:80-85 | The user starts with empty logins, tokens and roles, the all-zero identifier, every nullable field null and two-factor off. |
| IdentityUser.CassandraIdentityUser.WithId | src/AspNetCore.Identity.Cassandra/Models/CassandraIdentityUser.cs:87-91 | Same as the parameterless constructor, but the identifier is the one supplied. |
| IdentityUser.CassandraIdentityUser.SetLogins | src/AspNetCore.Identity.Cassandra/Models/CassandraIdentityUser.cs:44-48 | A null value changes nothing. Otherwise every given login is appended in order, with no duplicate check. |
| IdentityUser.CassandraIdentityUser.SetTokens | src/AspNetCore.Identity.Cassandra/Models/CassandraIdentityUser.cs:55-59 | A null value changes nothing. Otherwise every given token is appended in order, with no duplicate check. |
| IdentityUser.CassandraIdentityUser.SetRoles | src/AspNetCore.Identity.Cassandra/Models/CassandraIdentityUser.cs:66-70 | A null value changes nothing. Otherwise every given role is appended in order, with no duplicate check. |
| IdentityUser.SetterRepeatsPresentKey | src/AspNetCore.Identity.Cassandra/Models/CassandraIdentityUser.cs:44-70 | Whenever an element's key is already present (the case the add guards refuse), the setters' unchecked append of that element leaves a repeated key, for every list and key. |
| IdentityUser.CassandraIdentityUser.CleanUp | src/AspNetCore.Identity.Cassandra/Models/CassandraIdentityUser.cs:97-104 | Lockout, and likewise phone, is null afterwards exactly when it was null or all-default before. A present one is kept as it was. Only these two fields change, and a second call would change nothing. |
| IdentityUser.CassandraIdentityUser.AddLogin | src/AspNetCore.Identity.Cassandra/Models/CassandraIdentityUser.cs:106-115 | A null login fails with ArgumentNull. A login whose (provider, key) is present fails with AlreadyExists. Either failure leaves the list unchanged. Otherwise exactly that login is appended. Distinct keys stay distinct, and afterwards the key is present, so a second add fails. |
| IdentityUser.CassandraIdentityUser.RemoveLogin | src/AspNetCore.Identity.Cassandra/Models/CassandraIdentityUser.cs:117-128 | The login list becomes the first-match removal of the (provider, key) pair. An absent pair is no error and changes nothing. On distinct keys the pair is gone afterwards and the keys stay distinct. |
| IdentityUser.CassandraIdentityUser.AddToken | src/AspNetCore.Identity.Cassandra/Models/CassandraIdentityUser.cs:130-139 | A null token fails with ArgumentNull. A token whose (provider, name) is present fails with AlreadyExists. Either failure leaves the list unchanged. Otherwise exactly that token is appended. Distinct keys stay distinct, and the key is present afterwards. |
| IdentityUser.CassandraIdentityUser.RemoveToken | src/AspNetCore.Identity.Cassandra/Models/CassandraIdentityUser.cs:141-152 | The token list becomes the first-match removal of the (provider, name) pair. An absent pair is no error and changes nothing. On distinct keys the pair is gone afterwards and the keys stay distinct. |
| IdentityUser.CassandraIdentityUser.AddRole | src/AspNetCore.Identity.Cassandra/Models/CassandraIdentityUser.cs:154-161 | A null or empty name fails with ArgumentNull and changes nothing. A present role leaves the list unchanged, so adding is idempotent. A new role is appended. A duplicate-free list stays duplicate-free. |
| IdentityUser.CassandraIdentityUser.RemoveRole | src/AspNetCore.Identity.Cassandra/Models/CassandraIdentityUser.cs:163-170 | A null or empty name fails with ArgumentNull and changes nothing. An absent role is no error and changes nothing. Otherwise the first occurrence is removed. On a duplicate-free list the role is absent afterwards, every other role remains, and the list stays duplicate-free. |

## Left out

- samples/IdentitySample.Web/Startup.cs is not part of this model. It is configuration loading, dependency injection, the cluster connection and web middleware, with no logic to state.
- The Cassandra mapping attributes (`PartitionKey`, `Frozen`, `SecondaryIndex`, `Ignore`) configure the driver's serializer. They appear only as comments on the fields.
- The store operations are not part of this model: uniqueness-marker rows, conditional inserts, the role index, and row mapping. Their code is not part of the modelled source, and they are storage I/O.
- The bodies of `LoginInfo`, `TokenInfo`, `LockoutInfo` and `PhoneInfo` are not part of the modelled source. Their fields are taken from the user's documented data model: a lockout state holds a failure count, an end date and an enabled flag; a phone state holds a number, a confirmation time and a flag saying whether it serves two-factor sign-in. `LockoutAllDefault` and `PhoneAllDefault` define "all properties at defaults" as every one of those fields at its .NET default. The `Collapse` lemmas hold for any predicate.
- `RemoveLogin`, `RemoveToken`: the source removes with `List.Remove(item)`, which compares by `LoginInfo`/`TokenInfo` `Equals`, whose bodies are not part of the modelled source. The model assumes that call removes exactly the element the preceding `FirstOrDefault` found. That holds for reference equality and for field-wise equality. It would not hold for an `Equals` that can match an earlier element with a different (provider, key) or (provider, name) pair.
- The collection setters' argument may hold null elements. A later `Any` would then throw a `NullReferenceException`. The model's sequences hold no nulls.
- The `Logins`, `Tokens` and `Roles` getters return the live private list. A caller that casts it back could mutate it behind the guards. The model exposes the fields as values, so this aliasing is not captured.
- Exception messages and the distinction between .NET exception types are reduced to the two `UserError` values.
- `DateTimeOffset` is an opaque type with equality only. `Guid` is a 128-bit value with no generation.
- The plain property setters (`get; set;` and `get; internal set;`) are direct field assignments on the class and have no methods of their own.
