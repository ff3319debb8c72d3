/** The persistent records of the application (app/models.py) and the
    invariants the database schema imposes on them: unique user names, unique
    group names, unique e-mail addresses when present, the declared column
    widths, and a single many-to-many membership relation between users and
    groups. */
module Models {
  import opened Wrappers

  type UserId = nat
  type GroupId = nat

  /** Declared widths of the character columns. */
  const MaxGroupNameLength := 50
  const MaxUsernameLength := 50
  const MaxEmailLength := 100
  const MaxFullNameLength := 100
  const MaxHashedPasswordLength := 128

  /** A row of the user table.  `registrationDate` is the creation time, an
      opaque timestamp supplied by the caller. */
  datatype User = User(
    id: UserId,
    username: string,
    email: Option<string>,
    fullName: Option<string>,
    hashedPassword: string,
    isActive: bool,
    registrationDate: int)

  /** A row of the group table. */
  datatype Group = Group(id: GroupId, name: string)

  /** The serialized view of a user: every column except the password hash. */
  datatype UserView = UserView(
    id: UserId,
    username: string,
    email: Option<string>,
    fullName: Option<string>,
    isActive: bool,
    registrationDate: int)

  /** A freshly created user row: `is_active` takes its default, true. */
  function NewUser(id: UserId, username: string, email: Option<string>, fullName: Option<string>,
                   hashedPassword: string, now: int): (u: User)
    ensures u.isActive
    ensures u.id == id && u.username == username && u.email == email
    ensures u.fullName == fullName && u.hashedPassword == hashedPassword
  {
    User(id, username, email, fullName, hashedPassword, true, now)
  }

  function View(u: User): (v: UserView)
  {
    UserView(u.id, u.username, u.email, u.fullName, u.isActive, u.registrationDate)
  }

  /** The password hash never reaches the serialized view: two users that differ
      only in their hash serialize identically. */
  lemma ViewHidesPassword(u: User, hashedPassword: string)
    ensures View(u.(hashedPassword := hashedPassword)) == View(u)
    ensures View(u).username == u.username && View(u).id == u.id
  {
  }

  ghost predicate UserWithinWidths(u: User)
  {
    && |u.username| <= MaxUsernameLength
    && (u.email.Some? ==> |u.email.value| <= MaxEmailLength)
    && (u.fullName.Some? ==> |u.fullName.value| <= MaxFullNameLength)
    && |u.hashedPassword| <= MaxHashedPasswordLength
  }

  ghost predicate GroupWithinWidths(g: Group)
  {
    |g.name| <= MaxGroupNameLength
  }

  ghost predicate UniqueUsernames(users: map<UserId, User>)
  {
    forall a, b :: a in users && b in users && users[a].username == users[b].username ==> a == b
  }

  ghost predicate UniqueEmails(users: map<UserId, User>)
  {
    forall a, b :: a in users && b in users && users[a].email.Some? && users[a].email == users[b].email ==> a == b
  }

  ghost predicate UniqueGroupNames(groups: map<GroupId, Group>)
  {
    forall a, b :: a in groups && b in groups && groups[a].name == groups[b].name ==> a == b
  }

  /** Every stored state: keys agree with the records' ids, the unique columns
      are unique, the widths are respected and every membership pair joins a
      stored user to a stored group. */
  ghost predicate Consistent(users: map<UserId, User>, groups: map<GroupId, Group>, members: set<(UserId, GroupId)>)
  {
    && (forall id :: id in users ==> users[id].id == id && UserWithinWidths(users[id]))
    && (forall id :: id in groups ==> groups[id].id == id && GroupWithinWidths(groups[id]))
    && UniqueUsernames(users)
    && UniqueEmails(users)
    && UniqueGroupNames(groups)
    && (forall p :: p in members ==> p.0 in users && p.1 in groups)
  }

  /** `User.get(username=name)`: the one user with that name, if any. */
  function FindUserByName(users: map<UserId, User>, name: string): (r: Option<UserId>)
    requires UniqueUsernames(users)
    ensures r.Some? ==> r.value in users && users[r.value].username == name
    ensures r.None? <==> forall id :: id in users ==> users[id].username != name
  {
    if exists id :: id in users && users[id].username == name then
      var id :| id in users && users[id].username == name; Some(id)
    else
      None
  }

  /** `User.get(email=address)`: the one user with that e-mail address, if any. */
  function FindUserByEmail(users: map<UserId, User>, address: string): (r: Option<UserId>)
    requires UniqueEmails(users)
    ensures r.Some? ==> r.value in users && users[r.value].email == Some(address)
    ensures r.None? <==> forall id :: id in users ==> users[id].email != Some(address)
  {
    if exists id :: id in users && users[id].email == Some(address) then
      var id :| id in users && users[id].email == Some(address); Some(id)
    else
      None
  }

  /** `Group.get(name=name)`: the one group with that name, if any. */
  function FindGroupByName(groups: map<GroupId, Group>, name: string): (r: Option<GroupId>)
    requires UniqueGroupNames(groups)
    ensures r.Some? ==> r.value in groups && groups[r.value].name == name
    ensures r.None? <==> forall id :: id in groups ==> groups[id].name != name
  {
    if exists id :: id in groups && groups[id].name == name then
      var id :| id in groups && groups[id].name == name; Some(id)
    else
      None
  }

  /** `user.groups`: the groups a user belongs to. */
  function GroupsOf(members: set<(UserId, GroupId)>, user: UserId): set<GroupId>
  {
    set p | p in members && p.0 == user :: p.1
  }

  /** `group.users`: the users that belong to a group. */
  function UsersOf(members: set<(UserId, GroupId)>, group: GroupId): set<UserId>
  {
    set p | p in members && p.1 == group :: p.0
  }

  /** The two sides of the many-to-many field read the same relation. */
  lemma MembershipIsSymmetric(members: set<(UserId, GroupId)>, user: UserId, group: GroupId)
    ensures group in GroupsOf(members, user) <==> (user, group) in members
    ensures user in UsersOf(members, group) <==> (user, group) in members
  {
  }
}
