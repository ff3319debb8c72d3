/** The request handlers of app/main.py that write to the database, as
    methods of the store they change.  Each admin handler first checks that
    the acting user is an administrator (403 otherwise) and then performs its
    lookups in the order the code does; every rejected request leaves the
    store exactly as it was. */
module AdminStore {
  import opened Wrappers
  import opened Models
  import opened AuthGate

  /** What a handler sends back. */
  datatype Response =
    | Redirect(status: int, location: string)      // a redirect response
    | Json(success: bool, error: Option<string>)   // a JSON body {"success": ..., "error": ...}
    | Failure(status: int, detail: string)         // a raised HTTPException
    | Page(template: string, message: string)      // a rendered template with its error or info text

  const ToDashboard := Redirect(303, "/admin/dashboard")
  const PermissionDenied := Failure(403, "Permission denied")

  const DefaultAdminUsername := "admin"
  const DefaultAdminEmail := "admin@example.com"
  const DefaultAdminFullName := "Administrator"

  /** A form or JSON field counts as given when it is present and non-empty
      (Python truthiness of a string). */
  predicate Given(field: Option<string>)
  {
    field.Some? && field.value != ""
  }

  /** `invite_code != INVITE_CODE` is false only for the configured code. */
  predicate InviteAccepted(cfg: Config, inviteCode: Option<string>)
  {
    !cfg.inviteCodeEnabled || inviteCode == Some(cfg.inviteCode)
  }

  /** A new row the database accepts: within the column widths, and with an
      e-mail address no stored user has. */
  ghost predicate Insertable(users: map<UserId, User>, u: User)
  {
    && UserWithinWidths(u)
    && (u.email.Some? ==> forall id :: id in users ==> users[id].email != u.email)
  }

  /** A group name no other group has, within the column width. */
  ghost predicate GroupNameAvailable(groups: map<GroupId, Group>, name: string, except: int)
  {
    && |name| <= MaxGroupNameLength
    && forall id :: id in groups && id != except ==> groups[id].name != name
  }

  /** The state the start-up seeding establishes: a user "admin", a group
      "administrators", and the first a member of the second. */
  ghost predicate Seeded(users: map<UserId, User>, groups: map<GroupId, Group>, members: set<(UserId, GroupId)>)
  {
    exists u, g :: u in users && g in groups && users[u].username == DefaultAdminUsername
                   && groups[g].name == AdminGroupName && (u, g) in members
  }

  /** End to end on a seeded store: logging in as "admin" with a password
      that verifies yields a cookie that resolves to the admin user, and that
      user passes the authorization gate of every admin handler. */
  lemma SeededAdminPassesGate(cfg: Config, users: map<UserId, User>, groups: map<GroupId, Group>,
                              members: set<(UserId, GroupId)>, verify: (string, string) -> bool,
                              issue: string -> string, decode: string -> Option<UserManager.Payload>)
    requires Consistent(users, groups, members) && Seeded(users, groups, members)
    requires !cfg.emailAuthEnabled
    requires forall id :: id in users && users[id].username == DefaultAdminUsername ==>
      verify("admin", users[id].hashedPassword)
    requires forall name ::
      && ' ' !in issue(name) && decode(issue(name)).Some?
      && UserManager.SubjectClaim in decode(issue(name)).value
      && decode(issue(name)).value[UserManager.SubjectClaim] == name
    ensures var r := Login(cfg, users, DefaultAdminUsername, "admin", verify, issue);
            && r.SessionCookie?
            && var who := UserManager.GetCurrentUser(map[r.name := r.value], decode, users);
            && who.Ok? && who.value.username == DefaultAdminUsername
            && IsAdministrator(who.value, groups, members)
  {
    var u, g :| u in users && g in groups && users[u].username == DefaultAdminUsername
                && groups[g].name == AdminGroupName && (u, g) in members;
    assert FindUserByName(users, DefaultAdminUsername) == Some(u);
    assert AuthenticateUser(cfg, users, DefaultAdminUsername, "admin", verify) == Some(users[u]);
    LoginCookieResolves(cfg, users, DefaultAdminUsername, "admin", verify, issue, decode);
    assert FindGroupByName(groups, AdminGroupName) == Some(g);
  }

  /** The database: user rows, group rows and the user/group link table.
      Ids are handed out by the database from an ever-increasing counter. */
  class Store {
    var users: map<UserId, User>
    var groups: map<GroupId, Group>
    var members: set<(UserId, GroupId)>
    var nextUserId: nat
    var nextGroupId: nat

    ghost predicate Valid()
      reads this
    {
      && Consistent(users, groups, members)
      && (forall id :: id in users ==> id < nextUserId)
      && (forall id :: id in groups ==> id < nextGroupId)
    }

    /** An empty database, as the schema generator leaves it. */
    constructor ()
      ensures Valid()
      ensures users == map[] && groups == map[] && members == {}
    {
      users, groups, members := map[], map[], {};
      nextUserId, nextGroupId := 1, 1;
    }

    /** Stores a new user row under a fresh id. */
    method InsertUser(username: string, email: Option<string>, fullName: Option<string>,
                      hashedPassword: string, now: int) returns (id: UserId)
      requires Valid()
      requires forall other :: other in users ==> users[other].username != username
      requires Insertable(users, NewUser(nextUserId, username, email, fullName, hashedPassword, now))
      modifies this
      ensures Valid()
      ensures id == old(nextUserId) && id !in old(users)
      ensures users == old(users)[id := NewUser(id, username, email, fullName, hashedPassword, now)]
      ensures nextUserId == old(nextUserId) + 1
      ensures groups == old(groups) && members == old(members) && nextGroupId == old(nextGroupId)
    {
      id := nextUserId;
      users := users[id := NewUser(id, username, email, fullName, hashedPassword, now)];
      nextUserId := nextUserId + 1;
    }

    /** Stores a new group row under a fresh id. */
    method InsertGroup(name: string) returns (id: GroupId)
      requires Valid()
      requires GroupNameAvailable(groups, name, -1)
      modifies this
      ensures Valid()
      ensures id == old(nextGroupId) && id !in old(groups)
      ensures groups == old(groups)[id := Group(id, name)]
      ensures nextGroupId == old(nextGroupId) + 1
      ensures users == old(users) && members == old(members) && nextUserId == old(nextUserId)
    {
      id := nextGroupId;
      groups := groups[id := Group(id, name)];
      nextGroupId := nextGroupId + 1;
    }

    /** `create_default_admin_and_group`: get or create the user "admin", get
        or create the group "administrators", and link them unless already
        linked.  Running it on a seeded store changes nothing. */
    method CreateDefaultAdminAndGroup(hashedAdminPassword: string, now: int)
      requires Valid()
      requires FindUserByName(users, DefaultAdminUsername).None? ==>
        Insertable(users, NewUser(nextUserId, DefaultAdminUsername, Some(DefaultAdminEmail),
                                  Some(DefaultAdminFullName), hashedAdminPassword, now))
      modifies this
      ensures Valid()
      ensures Seeded(users, groups, members)
      ensures old(Seeded(users, groups, members)) ==> unchanged(this)
      ensures FindUserByName(old(users), DefaultAdminUsername).Some? ==>
        users == old(users) && nextUserId == old(nextUserId)
      ensures FindUserByName(old(users), DefaultAdminUsername).None? ==>
        users == old(users)[old(nextUserId) := NewUser(old(nextUserId), DefaultAdminUsername, Some(DefaultAdminEmail),
                                                      Some(DefaultAdminFullName), hashedAdminPassword, now)]
        && nextUserId == old(nextUserId) + 1
      ensures FindGroupByName(old(groups), AdminGroupName).Some? ==>
        groups == old(groups) && nextGroupId == old(nextGroupId)
      ensures FindGroupByName(old(groups), AdminGroupName).None? ==>
        groups == old(groups)[old(nextGroupId) := Group(old(nextGroupId), AdminGroupName)]
        && nextGroupId == old(nextGroupId) + 1
      ensures members == old(members) + {(FindUserByName(users, DefaultAdminUsername).value,
                                          FindGroupByName(groups, AdminGroupName).value)}
    {
      var admin: UserId;
      var foundUser := FindUserByName(users, DefaultAdminUsername);
      if foundUser.Some? {
        admin := foundUser.value;
      } else {
        admin := InsertUser(DefaultAdminUsername, Some(DefaultAdminEmail), Some(DefaultAdminFullName),
                            hashedAdminPassword, now);
      }
      var admins: GroupId;
      var foundGroup := FindGroupByName(groups, AdminGroupName);
      if foundGroup.Some? {
        admins := foundGroup.value;
      } else {
        admins := InsertGroup(AdminGroupName);
      }
      assert admin in users && users[admin].username == DefaultAdminUsername;
      assert admins in groups && groups[admins].name == AdminGroupName;
      if (admin, admins) !in members {
        members := members + {(admin, admins)};
      }
      assert FindUserByName(users, DefaultAdminUsername) == Some(admin);
      assert FindGroupByName(groups, AdminGroupName) == Some(admins);
      assert old(Seeded(users, groups, members)) ==> (admin, admins) in old(members);
    }

    /** `register`: the registration toggle (404), then the invite code, then
        the username; only when all pass is exactly one user added. */
    method Register(cfg: Config, username: string, email: Option<string>, hashedPassword: string,
                    fullName: Option<string>, inviteCode: Option<string>, now: int) returns (resp: Response)
      requires Valid()
      requires cfg.registrationEnabled && InviteAccepted(cfg, inviteCode) && FindUserByName(users, username).None? ==>
        Insertable(users, NewUser(nextUserId, username, email, fullName, hashedPassword, now))
      modifies this
      ensures Valid()
      ensures !cfg.registrationEnabled ==> resp == Failure(404, "Registration is disabled") && unchanged(this)
      ensures cfg.registrationEnabled && !InviteAccepted(cfg, inviteCode) ==>
        resp == Page("register.html", "Invalid invite code") && unchanged(this)
      ensures cfg.registrationEnabled && InviteAccepted(cfg, inviteCode) && FindUserByName(old(users), username).Some? ==>
        resp == Page("register.html", "Username already taken") && unchanged(this)
      ensures cfg.registrationEnabled && InviteAccepted(cfg, inviteCode) && FindUserByName(old(users), username).None? ==>
        && resp == Page("login.html", "Registration successful, please log in")
        && old(nextUserId) !in old(users)
        && users == old(users)[old(nextUserId) := NewUser(old(nextUserId), username, email, fullName, hashedPassword, now)]
        && |users| == |old(users)| + 1
        && groups == old(groups) && members == old(members)
        && nextUserId == old(nextUserId) + 1 && nextGroupId == old(nextGroupId)
    {
      if !cfg.registrationEnabled {
        return Failure(404, "Registration is disabled");
      }
      if !InviteAccepted(cfg, inviteCode) {
        return Page("register.html", "Invalid invite code");
      }
      var existing := FindUserByName(users, username);
      if existing.Some? {
        return Page("register.html", "Username already taken");
      }
      var id := InsertUser(username, email, fullName, hashedPassword, now);
      resp := Page("login.html", "Registration successful, please log in");
    }

    /** `edit_user`: set the full name of the named user. */
    method EditUser(actor: User, username: string, fullName: string) returns (resp: Response)
      requires Valid()
      requires IsAdministrator(actor, groups, members) && FindUserByName(users, username).Some? ==>
        |fullName| <= MaxFullNameLength
      modifies this
      ensures Valid()
      ensures !old(IsAdministrator(actor, groups, members)) ==> resp == PermissionDenied && unchanged(this)
      ensures old(IsAdministrator(actor, groups, members)) && FindUserByName(old(users), username).None? ==>
        resp == Failure(404, "User not found") && unchanged(this)
      ensures old(IsAdministrator(actor, groups, members)) && FindUserByName(old(users), username).Some? ==>
        var id := FindUserByName(old(users), username).value;
        && resp == ToDashboard
        && users == old(users)[id := old(users)[id].(fullName := Some(fullName))]
        && groups == old(groups) && members == old(members)
        && nextUserId == old(nextUserId) && nextGroupId == old(nextGroupId)
    {
      if !IsAdministrator(actor, groups, members) {
        return PermissionDenied;
      }
      var found := FindUserByName(users, username);
      if found.None? {
        return Failure(404, "User not found");
      }
      var id := found.value;
      users := users[id := users[id].(fullName := Some(fullName))];
      resp := ToDashboard;
    }

    /** `add_user_to_group`: link the named user to the named group (adding a
        link that exists already changes nothing). */
    method AddUserToGroup(actor: User, username: string, groupName: string) returns (resp: Response)
      requires Valid()
      modifies this
      ensures Valid()
      ensures !old(IsAdministrator(actor, groups, members)) ==> resp == PermissionDenied && unchanged(this)
      ensures old(IsAdministrator(actor, groups, members)) &&
              (FindUserByName(old(users), username).None? || FindGroupByName(old(groups), groupName).None?) ==>
        resp == Failure(404, "User or group not found") && unchanged(this)
      ensures old(IsAdministrator(actor, groups, members)) &&
              FindUserByName(old(users), username).Some? && FindGroupByName(old(groups), groupName).Some? ==>
        && resp == ToDashboard
        && members == old(members) + {(FindUserByName(old(users), username).value,
                                       FindGroupByName(old(groups), groupName).value)}
        && users == old(users) && groups == old(groups)
        && nextUserId == old(nextUserId) && nextGroupId == old(nextGroupId)
    {
      if !IsAdministrator(actor, groups, members) {
        return PermissionDenied;
      }
      var user := FindUserByName(users, username);
      var group := FindGroupByName(groups, groupName);
      if user.None? || group.None? {
        return Failure(404, "User or group not found");
      }
      members := members + {(user.value, group.value)};
      resp := ToDashboard;
    }

    /** `remove_user_from_group`: both fields must be given, both must name
        stored rows; then the link is gone. */
    method RemoveUserFromGroup(actor: User, username: Option<string>, groupName: Option<string>) returns (resp: Response)
      requires Valid()
      modifies this
      ensures Valid()
      ensures !old(IsAdministrator(actor, groups, members)) ==> resp == PermissionDenied && unchanged(this)
      ensures old(IsAdministrator(actor, groups, members)) && !(Given(username) && Given(groupName)) ==>
        resp == Json(false, Some("Username and group_name are required")) && unchanged(this)
      ensures old(IsAdministrator(actor, groups, members)) && Given(username) && Given(groupName) &&
              (FindUserByName(old(users), username.value).None? || FindGroupByName(old(groups), groupName.value).None?) ==>
        resp == Json(false, Some("User or group not found")) && unchanged(this)
      ensures old(IsAdministrator(actor, groups, members)) && Given(username) && Given(groupName) &&
              FindUserByName(old(users), username.value).Some? && FindGroupByName(old(groups), groupName.value).Some? ==>
        var link := (FindUserByName(old(users), username.value).value, FindGroupByName(old(groups), groupName.value).value);
        && resp == Json(true, None)
        && link !in members
        && members == old(members) - {link}
        && users == old(users) && groups == old(groups)
        && nextUserId == old(nextUserId) && nextGroupId == old(nextGroupId)
    {
      if !IsAdministrator(actor, groups, members) {
        return PermissionDenied;
      }
      if !Given(username) || !Given(groupName) {
        return Json(false, Some("Username and group_name are required"));
      }
      var user := FindUserByName(users, username.value);
      var group := FindGroupByName(groups, groupName.value);
      if user.None? || group.None? {
        return Json(false, Some("User or group not found"));
      }
      members := members - {(user.value, group.value)};
      resp := Json(true, None);
    }

    /** `create_group`: get-or-create by name; finding it already there is a
        400. */
    method CreateGroup(actor: User, name: string) returns (resp: Response)
      requires Valid()
      requires IsAdministrator(actor, groups, members) && FindGroupByName(groups, name).None? ==>
        |name| <= MaxGroupNameLength
      modifies this
      ensures Valid()
      ensures !old(IsAdministrator(actor, groups, members)) ==> resp == PermissionDenied && unchanged(this)
      ensures old(IsAdministrator(actor, groups, members)) && FindGroupByName(old(groups), name).Some? ==>
        resp == Failure(400, "Group already exists") && unchanged(this)
      ensures old(IsAdministrator(actor, groups, members)) && FindGroupByName(old(groups), name).None? ==>
        && resp == ToDashboard
        && old(nextGroupId) !in old(groups)
        && groups == old(groups)[old(nextGroupId) := Group(old(nextGroupId), name)]
        && users == old(users) && members == old(members)
        && nextGroupId == old(nextGroupId) + 1 && nextUserId == old(nextUserId)
    {
      if !IsAdministrator(actor, groups, members) {
        return PermissionDenied;
      }
      var found := FindGroupByName(groups, name);
      if found.Some? {
        return Failure(400, "Group already exists");
      }
      var id := InsertGroup(name);
      resp := ToDashboard;
    }

    /** `rename_group`: rename the group with the given id; its links follow
        it, since they refer to the id. */
    method RenameGroup(actor: User, groupId: int, newName: string) returns (resp: Response)
      requires Valid()
      requires IsAdministrator(actor, groups, members) && 0 <= groupId && groupId in groups ==>
        GroupNameAvailable(groups, newName, groupId)
      modifies this
      ensures Valid()
      ensures !old(IsAdministrator(actor, groups, members)) ==> resp == PermissionDenied && unchanged(this)
      ensures old(IsAdministrator(actor, groups, members)) && !(0 <= groupId && groupId in old(groups)) ==>
        resp == Failure(404, "Group not found") && unchanged(this)
      ensures old(IsAdministrator(actor, groups, members)) && 0 <= groupId && groupId in old(groups) ==>
        && resp == ToDashboard
        && groups == old(groups)[groupId := Group(groupId, newName)]
        && users == old(users) && members == old(members)
        && nextUserId == old(nextUserId) && nextGroupId == old(nextGroupId)
    {
      if !IsAdministrator(actor, groups, members) {
        return PermissionDenied;
      }
      if groupId < 0 || groupId !in groups {
        return Failure(404, "Group not found");
      }
      groups := groups[groupId := Group(groupId, newName)];
      resp := ToDashboard;
    }

    /** `delete_group`: remove the named group and its links. */
    method DeleteGroup(actor: User, name: string) returns (resp: Response)
      requires Valid()
      modifies this
      ensures Valid()
      ensures !old(IsAdministrator(actor, groups, members)) ==> resp == PermissionDenied && unchanged(this)
      ensures old(IsAdministrator(actor, groups, members)) && FindGroupByName(old(groups), name).None? ==>
        resp == Json(false, Some("Group not found")) && unchanged(this)
      ensures old(IsAdministrator(actor, groups, members)) && FindGroupByName(old(groups), name).Some? ==>
        var id := FindGroupByName(old(groups), name).value;
        && resp == Json(true, None)
        && groups == old(groups) - {id}
        && members == set p | p in old(members) && p.1 != id
        && users == old(users)
        && nextUserId == old(nextUserId) && nextGroupId == old(nextGroupId)
    {
      if !IsAdministrator(actor, groups, members) {
        return PermissionDenied;
      }
      var found := FindGroupByName(groups, name);
      if found.None? {
        return Json(false, Some("Group not found"));
      }
      var id := found.value;
      groups := groups - {id};
      members := set p | p in members && p.1 != id;
      resp := Json(true, None);
    }

    /** `delete_user`: refuse non-administrators (403), then refuse deleting
        oneself (400) before any lookup, then a missing user (404); otherwise
        remove that user and its links and nothing else. */
    method DeleteUser(actor: User, username: string) returns (resp: Response)
      requires Valid()
      modifies this
      ensures Valid()
      ensures !old(IsAdministrator(actor, groups, members)) ==> resp == PermissionDenied && unchanged(this)
      ensures old(IsAdministrator(actor, groups, members)) && username == actor.username ==>
        resp == Failure(400, "Cannot delete yourself") && unchanged(this)
      ensures old(IsAdministrator(actor, groups, members)) && username != actor.username &&
              FindUserByName(old(users), username).None? ==>
        resp == Failure(404, "User not found") && unchanged(this)
      ensures old(IsAdministrator(actor, groups, members)) && username != actor.username &&
              FindUserByName(old(users), username).Some? ==>
        var id := FindUserByName(old(users), username).value;
        && resp == ToDashboard
        && users == old(users) - {id}
        && FindUserByName(users, username).None?
        && members == set p | p in old(members) && p.0 != id
        && groups == old(groups)
        && nextUserId == old(nextUserId) && nextGroupId == old(nextGroupId)
    {
      if !IsAdministrator(actor, groups, members) {
        return PermissionDenied;
      }
      if username == actor.username {
        return Failure(400, "Cannot delete yourself");
      }
      var found := FindUserByName(users, username);
      if found.None? {
        return Failure(404, "User not found");
      }
      var id := found.value;
      users := users - {id};
      members := set p | p in members && p.0 != id;
      resp := ToDashboard;
    }
  }
}
