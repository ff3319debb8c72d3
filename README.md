# fastapi-auth: the authentication and authorization core, in Dafny

This project models the part of the fastapi-auth user/group admin panel that
makes decisions. It covers four things:

- how a request's `access_token` cookie is resolved to a stored user;
- the check that the acting user is in the group named exactly `administrators`;
- the credential check behind the login form, and the session cookie it writes;
- the handlers that change the user/group store: registration, default-admin
  seeding, editing a user, adding and removing memberships, creating, renaming
  and deleting groups, and deleting users.

The database is an in-memory store. It holds user rows and group rows keyed by
their ids, plus one set of (user id, group id) pairs that is the many-to-many
membership table. Its invariant (`Models.Consistent`, `AdminStore.Store.Valid`)
holds that:

- usernames are unique, group names are unique, and e-mail addresses are unique
  when present;
- every row fits the declared column widths;
- every membership pair joins a stored user to a stored group.

Modules, one per source file or part of one:

- `Wrappers`: `Option` and `Result`.
- `Models` (app/models.py): user and group records, the serialized user view,
  the store invariants, and the lookups `User.get(username=…)`,
  `User.get(email=…)` and `Group.get(name=…)`.
- `UserManager` (app/user_manager.py): Python's `str.split(" ")`, the
  scheme check, and `get_current_user`.
- `AuthGate` (app/main.py, read-only part): the feature toggles,
  `is_administrator`, `authenticate_user`, the login cookie, and the dashboard
  counts.
- `AdminStore` (app/main.py, handlers that write): the class `Store` and
  its methods. Each method states its response and the whole new state: the
  user, group and membership tables and the id counters.

Foreign calls are parameters:

- the JWT decoder is `decode: string -> Option<Payload>`, with signature and
  expiry checking inside it;
- the token encoder is `issue: string -> string`, mapping a subject to a token;
- password verification is `verify: (string, string) -> bool`;
- the salted password hash and the creation time are passed in as values.

Where the written design and the code differ, the model follows the code:

- The cookie is split on every space, not only on the first. It must give
  exactly two pieces. `"Bearer a b"` and `"Bearer"` are both rejected (the
  `ValueError` path).
- Self-deletion is checked after the administrator check, so a non-administrator
  deleting themselves gets 403, not 400.
- `remove_user_from_group` and `delete_group` do not answer 404 for a missing
  row. They answer a JSON body with `success: false`.

## Model

| member | source | states |
|---|---|---|
| Models.NewUser | app/models.py:18-25 | a newly created user is active (`is_active` defaults to true) and carries the given username, e-mail, full name and hash |
| Models.ViewHidesPassword | app/models.py:31-32 | the serialized user view does not depend on the password hash |
| Models.FindUserByName | app/models.py:20 | under unique usernames, the lookup returns the one user with that name, and returns nothing exactly when no user has it |
| Models.FindUserByEmail | app/models.py:21 | under unique e-mail addresses, the lookup returns the one user with that address, and returns nothing exactly when no user has it |
| Models.FindGroupByName | app/models.py:9 | under unique group names, the lookup returns the one group with that name, and returns nothing exactly when no group has it |
| Models.MembershipIsSymmetric | app/models.py:10-12 | `user.groups` and `group.users` are two views of the same set of membership pairs |
| UserManager.Split | app/user_manager.py:25 | `split(" ")` gives one more piece than there are spaces, and no piece contains a space |
| UserManager.JoinSplit | app/user_manager.py:25 | joining the pieces with single spaces gives back the original cookie value |
| UserManager.SplitOneSpace | app/user_manager.py:25 | two space-free strings joined by one space split back into exactly those two strings |
| UserManager.SplitTwoIff | app/user_manager.py:25 | the cookie unpacks into (scheme, token) exactly when it is two space-free strings joined by one space |
| UserManager.BearerSchemeIff | app/user_manager.py:26-32 | the scheme is accepted exactly when it is "bearer" with any mix of upper and lower case |
| UserManager.GetCurrentUser | app/user_manager.py:18-60 | a missing or empty cookie fails first, with "Not authenticated"; a success returns a stored user whose username is the "sub" claim of a space-free token whose scheme passed the check |
| UserManager.ResolvesWellFormedCookie | app/user_manager.py:25-46 | a cookie made of an accepted scheme, one space and a token whose "sub" names a stored user resolves to exactly that user |
| UserManager.WrongPieceCountRejected | app/user_manager.py:25-53 | a non-empty cookie with zero spaces, or with two or more, fails as malformed, with "Could not validate credentials" |
| UserManager.OtherSchemeRejected | app/user_manager.py:26-32 | a well-split cookie whose scheme is not a case variant of "bearer" fails with the scheme error, "Invalid authentication scheme" |
| UserManager.TokenFailuresRejected | app/user_manager.py:34-60 | once the scheme passes, a rejected token, a payload without "sub", and an unknown subject each fail with their own cause; the first two answer "Could not validate credentials", the last "User not found" |
| AuthGate.IsAdministrator | app/main.py:184-186 | the user is an administrator exactly when the one group named exactly "administrators" is among the user's groups (`user.groups`) |
| AuthGate.GateNeedsExactMembership | app/main.py:184-186 | a user with no groups, or whose groups are all named "Administrators", is not an administrator: the name match is exact and case-sensitive |
| AuthGate.RevokedMembershipDenies | app/main.py:184-186 | removing the user's link to the administrators group revokes administrator status at once |
| AuthGate.AuthenticateUser | app/main.py:86-100 | looks up by e-mail when e-mail login is enabled, else by username; returns a stored, matching user whose password verifies, and returns None exactly when no such user exists |
| AuthGate.Login | app/main.py:111-129 | the `access_token` cookie is set exactly when `authenticate_user` returns a user, and its value is "Bearer " followed by the token issued for that user's name; otherwise the login page with "Invalid credentials" |
| AuthGate.LoginFailureIsGeneric | app/main.py:112-114 | an unknown identifier and a wrong password give the same login page |
| AuthGate.LoginCookieResolves | app/main.py:116-123 | round trip: when tokens contain no space and decode to a payload whose "sub" claim is their subject (other claims such as "exp" may be present), the cookie written at login resolves to the user who logged in |
| AuthGate.AdminDashboard | app/main.py:191-223 | total users is the number of stored users; each group name maps to that group's member count; the administrators count is that group's size, or 0 when there is no such group |
| AuthGate.AdminSeesNonZeroAdminCount | app/main.py:195-211 | an administrator's dashboard shows at least one administrator |
| AuthGate.GroupCountsBoundedByTotal | app/main.py:198-208 | in a consistent store no group's count exceeds the total number of users |
| AdminStore.SeededAdminPassesGate | app/main.py:54-123 | on a seeded store, logging in as admin yields a cookie that resolves to the admin user, and that user passes the administrator check |
| AdminStore.Store.constructor | app/main.py:35-39 | a new database is empty and consistent |
| AdminStore.Store.CreateDefaultAdminAndGroup | app/main.py:54-82 | afterwards "admin" exists, "administrators" exists and admin is a member; each is created only if missing; on a store already seeded nothing changes (idempotent) |
| AdminStore.Store.Register | app/main.py:145-180 | checks in order: disabled gives 404; a wrong invite code gives the "Invalid invite code" page; a taken username gives the "Username already taken" page; all three leave the store unchanged; otherwise exactly one new user is added |
| AdminStore.Store.EditUser | app/main.py:228-242 | 403 without change for non-administrators; 404 without change for an unknown user; otherwise only that user's full name changes |
| AdminStore.Store.AddUserToGroup | app/main.py:247-261 | 403 without change; 404 without change when the user or group is missing; otherwise the pair is added to the membership and nothing else changes |
| AdminStore.Store.RemoveUserFromGroup | app/main.py:266-283 | 403 without change; `success: false` without change when a field is missing or empty, or when the user or group is unknown; otherwise the pair is no longer a membership and nothing else changes |
| AdminStore.Store.CreateGroup | app/main.py:288-297 | 403 without change; 400 without change when the name exists; otherwise exactly one group with that name is added under a fresh id |
| AdminStore.Store.RenameGroup | app/main.py:302-313 | 403 without change; 404 without change for an unknown id; otherwise only that group's name changes, and its memberships stay |
| AdminStore.Store.DeleteGroup | app/main.py:318-328 | 403 without change; `success: false` without change when the group is missing; otherwise the group and its memberships are removed and nothing else |
| AdminStore.Store.DeleteUser | app/main.py:333-349 | 403 without change; 400 without change when deleting oneself, checked before any lookup; 404 without change when the user is missing; otherwise only that user and its memberships are removed |

## Left out

- JWT encoding and decoding: the signature algorithm, expiry and the signing key are inside the `decode` and `issue` parameters. Nothing is proved about them.
- Password hashing and verification: `app.auth` is not part of this model. Verification is a parameter, and the stored hash is a value passed in.
- Tortoise ORM connection set-up, schema generation and teardown: the model starts from an empty store.
- Errors the code does not handle are preconditions of the handler that would reach them. These are a duplicate e-mail, renaming a group to a name another group has, and a value wider than its column.
- Deleting a user or group also deletes its membership rows, as the link table's cascading foreign keys do.
- Templates, HTML and JSON rendering, redirect plumbing, cookie security flags and logging. The one exception is the error and info text each handler returns, which is modelled.
- The GET pages `login_form` and `register_form`, and `logout`. They only render a page or delete the cookie.
- The ordering of the dashboard's user list, and the group objects it passes to the template: they are presentation only.
- Concurrency and async: each handler is one sequential step.
- app/config.py: the toggles are the `Config` value passed to each operation. Their environment defaults are not modelled.
- app/csrf.py and app/schemas.py: no behaviour.
- UserManager.Lower: lower-cases ASCII capitals only. This is exact for the comparison with "bearer", because no other character lower-cases to b, e, a or r.
- Payload: claim values are strings. A JSON `null` "sub" claim is modelled as an absent claim, which has the same outcome.
