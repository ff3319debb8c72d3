/** The read-only logic of app/main.py: the feature toggles, the
    authorization predicate, the credential check behind the login form, the
    session cookie it issues, and the counts shown on the dashboard. */
module AuthGate {
  import opened Wrappers
  import opened Models
  import opened UserManager

  /** The privileged group: membership is the only thing that authorizes an
      administrative action. */
  const AdminGroupName := "administrators"

  /** The feature toggles read from the environment at start-up. */
  datatype Config = Config(
    emailAuthEnabled: bool,
    registrationEnabled: bool,
    inviteCodeEnabled: bool,
    inviteCode: string)

  /** `is_administrator`: some group of the user is named exactly
      "administrators".  Membership is read live from the store, never from the
      token.  Because group names are unique this is membership in the one
      group of that name. */
  function IsAdministrator(actor: User, groups: map<GroupId, Group>, members: set<(UserId, GroupId)>): (r: bool)
    requires UniqueGroupNames(groups)
    ensures r <==> (var admins := FindGroupByName(groups, AdminGroupName);
                    admins.Some? && (actor.id, admins.value) in members)
    ensures r <==> (var admins := FindGroupByName(groups, AdminGroupName);
                    admins.Some? && admins.value in GroupsOf(members, actor.id))
  {
    exists p :: p in members && p.0 == actor.id && p.1 in groups && groups[p.1].name == AdminGroupName
  }

  /** A user with no memberships is never an administrator, and neither is
      one whose groups are all named "Administrators": the match is exact and
      case-sensitive. */
  lemma GateNeedsExactMembership(actor: User, groups: map<GroupId, Group>, members: set<(UserId, GroupId)>)
    requires UniqueGroupNames(groups)
    ensures GroupsOf(members, actor.id) == {} ==> !IsAdministrator(actor, groups, members)
    ensures (forall g :: g in GroupsOf(members, actor.id) && g in groups ==> groups[g].name == "Administrators")
            ==> !IsAdministrator(actor, groups, members)
  {
  }

  /** Revoking the membership takes effect at once: after the pair is removed
      the same user is no longer an administrator. */
  lemma RevokedMembershipDenies(actor: User, groups: map<GroupId, Group>,
                                                 members: set<(UserId, GroupId)>, admins: GroupId)
    requires UniqueGroupNames(groups)
    requires admins in groups && groups[admins].name == AdminGroupName
    ensures !IsAdministrator(actor, groups, members - {(actor.id, admins)})
  {
  }

  /** The login identifier matches a user: by e-mail address when e-mail
      authentication is on, otherwise by username. */
  predicate IdentifiedBy(cfg: Config, u: User, identifier: string)
  {
    if cfg.emailAuthEnabled then u.email == Some(identifier) else u.username == identifier
  }

  /** `authenticate_user`: the user the identifier names, provided the
      password verifies against its stored hash.  An unknown identifier and a
      wrong password both give None. */
  function AuthenticateUser(cfg: Config, users: map<UserId, User>, identifier: string, password: string,
                            verify: (string, string) -> bool): (r: Option<User>)
    requires UniqueUsernames(users) && UniqueEmails(users)
    ensures r.Some? ==> r.value in users.Values && IdentifiedBy(cfg, r.value, identifier)
                        && verify(password, r.value.hashedPassword)
    ensures r.None? <==> forall id :: id in users && IdentifiedBy(cfg, users[id], identifier)
                                      ==> !verify(password, users[id].hashedPassword)
  {
    var found := if cfg.emailAuthEnabled then FindUserByEmail(users, identifier)
                 else FindUserByName(users, identifier);
    match found
    case None => None
    case Some(id) =>
      if !verify(password, users[id].hashedPassword) then None
      else Some(users[id])
  }

  /** The outcome of the login form: a session cookie, or the login page again
      with one generic message. */
  datatype LoginResult =
    | SessionCookie(name: string, value: string)
    | LoginPage(error: string)

  const InvalidCredentials := "Invalid credentials"

  /** `login`: on success the cookie `access_token` carries "Bearer " followed
      by the token issued for the user's name; `issue` stands for the token
      encoder, with its clock and signing key. */
  function Login(cfg: Config, users: map<UserId, User>, identifier: string, password: string,
                 verify: (string, string) -> bool, issue: string -> string): (r: LoginResult)
    requires UniqueUsernames(users) && UniqueEmails(users)
    ensures r.LoginPage? ==> r.error == InvalidCredentials
    ensures r.SessionCookie? <==> AuthenticateUser(cfg, users, identifier, password, verify).Some?
    ensures r.SessionCookie? ==>
      r.value == "Bearer " + issue(AuthenticateUser(cfg, users, identifier, password, verify).value.username)
    ensures r.SessionCookie? ==>
      r.name == CookieName &&
      exists id :: id in users && IdentifiedBy(cfg, users[id], identifier)
                   && verify(password, users[id].hashedPassword)
                   && r.value == "Bearer " + issue(users[id].username)
  {
    match AuthenticateUser(cfg, users, identifier, password, verify)
    case None => LoginPage(InvalidCredentials)
    case Some(u) => SessionCookie(CookieName, "Bearer " + issue(u.username))
  }

  /** Login failure does not reveal whether the account exists: an unknown
      identifier and a wrong password give the same page. */
  lemma LoginFailureIsGeneric(cfg: Config, users: map<UserId, User>, identifier: string,
                              password: string, verify: (string, string) -> bool, issue: string -> string)
    requires UniqueUsernames(users) && UniqueEmails(users)
    requires forall id :: id in users ==>
      !IdentifiedBy(cfg, users[id], identifier) || !verify(password, users[id].hashedPassword)
    ensures Login(cfg, users, identifier, password, verify, issue) == LoginPage(InvalidCredentials)
  {
  }

  /** Round trip: when the token codec gives back the subject it was issued
      for and its tokens contain no space, the cookie written at login
      resolves, on the next request, to the very user who logged in. */
  lemma LoginCookieResolves(cfg: Config, users: map<UserId, User>, identifier: string, password: string,
                            verify: (string, string) -> bool, issue: string -> string,
                            decode: string -> Option<Payload>)
    requires UniqueUsernames(users) && UniqueEmails(users)
    requires forall name ::
      && ' ' !in issue(name) && decode(issue(name)).Some?
      && SubjectClaim in decode(issue(name)).value && decode(issue(name)).value[SubjectClaim] == name
    requires AuthenticateUser(cfg, users, identifier, password, verify).Some?
    ensures var r := Login(cfg, users, identifier, password, verify, issue);
            r.SessionCookie? &&
            GetCurrentUser(map[r.name := r.value], decode, users)
              == Ok(AuthenticateUser(cfg, users, identifier, password, verify).value)
  {
    var u := AuthenticateUser(cfg, users, identifier, password, verify).value;
    var r := Login(cfg, users, identifier, password, verify, issue);
    var id :| id in users && users[id] == u;
    var token := issue(u.username);
    assert r.value == "Bearer" + " " + token;
    assert IsBearerScheme("Bearer") by { BearerSchemeIff("Bearer"); }
    ResolvesWellFormedCookie(map[r.name := r.value], decode, users, "Bearer", token, id);
  }

  /** The figures the dashboard shows. */
  datatype Dashboard = Dashboard(
    isAdmin: bool,
    totalUsers: nat,
    groupUserCounts: map<string, nat>,
    adminGroupCount: nat)

  /** `admin_dashboard`: the number of users, the size of each group by name,
      and the size of the administrators group, 0 when there is none. */
  function AdminDashboard(actor: User, users: map<UserId, User>, groups: map<GroupId, Group>,
                          members: set<(UserId, GroupId)>): (d: Dashboard)
    requires UniqueGroupNames(groups)
    ensures d.isAdmin == IsAdministrator(actor, groups, members)
    ensures d.totalUsers == |users|
    ensures forall id :: id in groups ==>
      groups[id].name in d.groupUserCounts && d.groupUserCounts[groups[id].name] == |UsersOf(members, id)|
    ensures forall name :: name in d.groupUserCounts ==> FindGroupByName(groups, name).Some?
    ensures FindGroupByName(groups, AdminGroupName).None? ==> d.adminGroupCount == 0
    ensures FindGroupByName(groups, AdminGroupName).Some? ==>
      d.adminGroupCount == |UsersOf(members, FindGroupByName(groups, AdminGroupName).value)|
  {
    var counts := map id | id in groups :: groups[id].name := |UsersOf(members, id)|;
    Dashboard(
      IsAdministrator(actor, groups, members),
      |users|,
      counts,
      if AdminGroupName in counts then counts[AdminGroupName] else 0)
  }

  /** An administrator looking at the dashboard is counted among the members
      of the administrators group, so the count is at least one. */
  lemma AdminSeesNonZeroAdminCount(actor: User, users: map<UserId, User>, groups: map<GroupId, Group>,
                                   members: set<(UserId, GroupId)>)
    requires UniqueGroupNames(groups)
    requires IsAdministrator(actor, groups, members)
    ensures AdminDashboard(actor, users, groups, members).isAdmin
    ensures AdminDashboard(actor, users, groups, members).adminGroupCount >= 1
  {
    var admins := FindGroupByName(groups, AdminGroupName).value;
    assert actor.id in UsersOf(members, admins);
  }

  /** In a consistent store every group counts only stored users, so no group
      on the dashboard is larger than the user total. */
  lemma GroupCountsBoundedByTotal(actor: User, users: map<UserId, User>, groups: map<GroupId, Group>,
                                  members: set<(UserId, GroupId)>, id: GroupId)
    requires Consistent(users, groups, members)
    requires id in groups
    ensures AdminDashboard(actor, users, groups, members).groupUserCounts[groups[id].name]
            <= AdminDashboard(actor, users, groups, members).totalUsers
  {
    var inGroup := UsersOf(members, id);
    assert inGroup <= users.Keys;
    SubsetCardinality(inGroup, users.Keys);
  }

  lemma {:induction false} SubsetCardinality<T>(a: set<T>, b: set<T>)
    requires a <= b
    ensures |a| <= |b|
  {
    if a != {} {
      var x :| x in a;
      SubsetCardinality(a - {x}, b - {x});
    }
  }
}
