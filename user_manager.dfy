/** Identity resolution from the session cookie (app/user_manager.py).

    The cookie value is split on every space and must yield exactly two
    pieces, the scheme (compared case-insensitively with "bearer") and the
    token; the token is decoded by the JWT library, whose signature and expiry
    checks are folded into the `decode` parameter; the subject claim names the
    user to load.  Every failure is an HTTP 401, and nothing is written. */
module UserManager {
  import opened Wrappers
  import opened Models

  /** The claims of a decoded token, by claim name. */
  type Payload = map<string, string>

  const CookieName := "access_token"
  const SubjectClaim := "sub"

  /** Why resolution failed.  The client sees status 401 in every case; the
      detail message distinguishes only four of them. */
  datatype AuthError =
    | MissingCookie      // no cookie, or an empty one
    | MalformedCookie    // not exactly two space-separated pieces (ValueError)
    | InvalidScheme      // first piece is not "bearer" in any case
    | BadToken           // the JWT library rejected the token
    | MissingSubject     // decoded payload has no "sub" claim
    | UnknownUser        // no stored user has the subject as username
  {
    function Status(): int { 401 }

    function Detail(): string
    {
      match this
      case MissingCookie => "Not authenticated"
      case InvalidScheme => "Invalid authentication scheme"
      case UnknownUser => "User not found"
      case _ => "Could not validate credentials"
    }
  }

  /** Number of spaces in `s`. */
  function Spaces(s: string): nat
  {
    if s == [] then 0 else (if s[0] == ' ' then 1 else 0) + Spaces(s[1..])
  }

  /** Python's `s.split(" ")`: the pieces between consecutive spaces, empty
      pieces included, so there is always one more piece than there are
      spaces and no piece contains a space. */
  function Split(s: string): (parts: seq<string>)
    ensures |parts| == Spaces(s) + 1
    ensures forall i :: 0 <= i < |parts| ==> ' ' !in parts[i]
  {
    if s == [] then [""]
    else
      var rest := Split(s[1..]);
      if s[0] == ' ' then [""] + rest
      else [[s[0]] + rest[0]] + rest[1..]
  }

  /** Python's `" ".join(parts)`. */
  function Join(parts: seq<string>): string
    requires |parts| >= 1
  {
    if |parts| == 1 then parts[0] else parts[0] + " " + Join(parts[1..])
  }

  /** Joining the pieces back with single spaces gives the original string. */
  lemma {:induction false} JoinSplit(s: string)
    ensures Join(Split(s)) == s
  {
    if s != [] {
      var rest := Split(s[1..]);
      JoinSplit(s[1..]);
      if s[0] == ' ' {
        assert Split(s) == [""] + rest;
        assert Join(Split(s)) == "" + " " + Join(rest);
        assert s == [s[0]] + s[1..];
      } else {
        var parts := Split(s);
        assert parts == [[s[0]] + rest[0]] + rest[1..];
        if |rest| == 1 {
          assert Join(parts) == [s[0]] + rest[0];
        } else {
          assert parts[1..] == rest[1..];
          assert Join(parts) == [s[0]] + rest[0] + " " + Join(rest[1..]);
          assert Join(rest) == rest[0] + " " + Join(rest[1..]);
        }
        assert s == [s[0]] + s[1..];
      }
    }
  }

  /** A string without spaces is a single piece. */
  lemma {:induction false} SplitNoSpace(s: string)
    requires ' ' !in s
    ensures Split(s) == [s]
  {
    if s != [] {
      SplitNoSpace(s[1..]);
      assert s == [s[0]] + s[1..];
    }
  }

  /** A space-free prefix is glued onto the first piece of what follows. */
  lemma {:induction false} SplitPrefix(a: string, t: string)
    requires ' ' !in a
    ensures Split(a + t) == [a + Split(t)[0]] + Split(t)[1..]
  {
    if a != [] {
      SplitPrefix(a[1..], t);
      var parts := Split(t);
      assert (a + t)[0] == a[0] && (a + t)[1..] == a[1..] + t;
      var rest := Split(a[1..] + t);
      assert rest == [a[1..] + parts[0]] + parts[1..];
      assert Split(a + t) == [[a[0]] + rest[0]] + rest[1..];
      assert rest[1..] == parts[1..];
      assert [a[0]] + (a[1..] + parts[0]) == a + parts[0];
    } else {
      var parts := Split(t);
      assert a + t == t && a + parts[0] == parts[0];
      assert parts == [parts[0]] + parts[1..];
    }
  }

  /** `"a b".split(" ") == ["a", "b"]` for space-free `a` and `b`. */
  lemma SplitOneSpace(a: string, b: string)
    requires ' ' !in a && ' ' !in b
    ensures Split(a + " " + b) == [a, b]
  {
    SplitNoSpace(b);
    assert (" " + b)[1..] == b;
    assert Split(" " + b) == ["", b];
    SplitPrefix(a, " " + b);
    assert a + " " + b == a + (" " + b);
    assert a + "" == a;
  }

  /** The cookie splits into exactly two pieces precisely when it is two
      space-free strings joined by one space. */
  lemma SplitTwoIff(s: string, a: string, b: string)
    ensures Split(s) == [a, b] <==> (s == a + " " + b && ' ' !in a && ' ' !in b)
  {
    if Split(s) == [a, b] {
      JoinSplit(s);
      assert Join([a, b]) == a + " " + Join([b]);
      assert 0 < 2 && ' ' !in Split(s)[0];
      assert ' ' !in Split(s)[1];
    }
    if s == a + " " + b && ' ' !in a && ' ' !in b {
      SplitOneSpace(a, b);
    }
  }

  /** `c.lower()` on the characters that can matter here (see Lower). */
  function LowerChar(c: char): char
  {
    if 'A' <= c <= 'Z' then (c as int + ('a' as int - 'A' as int)) as char else c
  }

  /** `s.lower()`, folding ASCII capitals only.  For the one comparison made
      with the result, against "bearer", this is exact: no other character
      lower-cases to one of b, e, a, r. */
  function Lower(s: string): (r: string)
    ensures |r| == |s|
  {
    seq(|s|, i requires 0 <= i < |s| => LowerChar(s[i]))
  }

  predicate IsBearerScheme(scheme: string)
  {
    Lower(scheme) == "bearer"
  }

  /** The scheme check accepts exactly the case variants of "bearer":
      "Bearer", "BEARER", "bearer", "bEaReR", ... and nothing else. */
  lemma BearerSchemeIff(scheme: string)
    ensures IsBearerScheme(scheme) <==>
      |scheme| == 6 && forall i :: 0 <= i < 6 ==> scheme[i] == "bearer"[i] || scheme[i] == "BEARER"[i]
  {
  }

  /** `get_current_user`: resolve the request's cookies to a stored user, or
      fail with the first check that does not pass. */
  function GetCurrentUser(cookies: map<string, string>, decode: string -> Option<Payload>,
                          users: map<UserId, User>): (r: Result<User, AuthError>)
    requires UniqueUsernames(users)
    ensures CookieName !in cookies || cookies[CookieName] == "" ==>
      r == Err(MissingCookie) && r.error.Detail() == "Not authenticated"
    ensures r.Ok? ==> r.value in users.Values
    ensures r.Ok? ==>
      exists scheme, token ::
        && cookies[CookieName] == scheme + " " + token
        && IsBearerScheme(scheme) && ' ' !in token
        && decode(token).Some? && SubjectClaim in decode(token).value
        && decode(token).value[SubjectClaim] == r.value.username
  {
    if CookieName !in cookies || cookies[CookieName] == "" then Err(MissingCookie)
    else
      var parts := Split(cookies[CookieName]);
      if |parts| != 2 then Err(MalformedCookie)
      else if !IsBearerScheme(parts[0]) then Err(InvalidScheme)
      else match decode(parts[1])
        case None => Err(BadToken)
        case Some(payload) =>
          if SubjectClaim !in payload then Err(MissingSubject)
          else match FindUserByName(users, payload[SubjectClaim])
            case None => Err(UnknownUser)
            case Some(id) =>
              SplitTwoIff(cookies[CookieName], parts[0], parts[1]);
              Ok(users[id])
  }

  /** A cookie of the form `scheme + " " + token` with an accepted scheme, a
      space-free token whose payload names a stored user resolves to exactly
      that user: the converse of GetCurrentUser's success clause. */
  lemma ResolvesWellFormedCookie(cookies: map<string, string>, decode: string -> Option<Payload>,
                                 users: map<UserId, User>, scheme: string, token: string, id: UserId)
    requires UniqueUsernames(users)
    requires CookieName in cookies && cookies[CookieName] == scheme + " " + token
    requires IsBearerScheme(scheme) && ' ' !in token
    requires decode(token).Some? && SubjectClaim in decode(token).value
    requires id in users && users[id].username == decode(token).value[SubjectClaim]
    ensures GetCurrentUser(cookies, decode, users) == Ok(users[id])
  {
    assert ' ' !in scheme by {
      BearerSchemeIff(scheme);
      assert forall i :: 0 <= i < |scheme| ==> scheme[i] != ' ';
    }
    SplitOneSpace(scheme, token);
    assert cookies[CookieName] != "";
  }

  /** A cookie with no space, or with two or more, is rejected before the
      token is looked at. */
  lemma WrongPieceCountRejected(cookies: map<string, string>, decode: string -> Option<Payload>,
                                users: map<UserId, User>)
    requires UniqueUsernames(users)
    requires CookieName in cookies && cookies[CookieName] != ""
    requires Spaces(cookies[CookieName]) != 1
    ensures GetCurrentUser(cookies, decode, users) == Err(MalformedCookie)
    ensures GetCurrentUser(cookies, decode, users).error.Detail() == "Could not validate credentials"
  {
  }

  /** A well-split cookie whose first piece is not a case variant of "bearer"
      is rejected with the scheme error. */
  lemma OtherSchemeRejected(cookies: map<string, string>, decode: string -> Option<Payload>,
                            users: map<UserId, User>, scheme: string, token: string)
    requires UniqueUsernames(users)
    requires CookieName in cookies && cookies[CookieName] == scheme + " " + token
    requires ' ' !in scheme && ' ' !in token
    requires |scheme| != 6 || exists i :: 0 <= i < 6 && scheme[i] != "bearer"[i] && scheme[i] != "BEARER"[i]
    ensures GetCurrentUser(cookies, decode, users) == Err(InvalidScheme)
    ensures GetCurrentUser(cookies, decode, users).error.Detail() == "Invalid authentication scheme"
  {
    SplitOneSpace(scheme, token);
    BearerSchemeIff(scheme);
  }

  /** Past the scheme check, a token the library rejects, a payload without a
      subject, and a subject that names nobody each fail with their own cause. */
  lemma TokenFailuresRejected(cookies: map<string, string>, decode: string -> Option<Payload>,
                              users: map<UserId, User>, scheme: string, token: string)
    requires UniqueUsernames(users)
    requires CookieName in cookies && cookies[CookieName] == scheme + " " + token
    requires ' ' !in scheme && ' ' !in token && IsBearerScheme(scheme)
    ensures decode(token).None? ==>
      && GetCurrentUser(cookies, decode, users) == Err(BadToken)
      && GetCurrentUser(cookies, decode, users).error.Detail() == "Could not validate credentials"
    ensures decode(token).Some? && SubjectClaim !in decode(token).value ==>
      && GetCurrentUser(cookies, decode, users) == Err(MissingSubject)
      && GetCurrentUser(cookies, decode, users).error.Detail() == "Could not validate credentials"
    ensures (&& decode(token).Some? && SubjectClaim in decode(token).value
             && forall id :: id in users ==> users[id].username != decode(token).value[SubjectClaim])
      ==> && GetCurrentUser(cookies, decode, users) == Err(UnknownUser)
          && GetCurrentUser(cookies, decode, users).error.Detail() == "User not found"
  {
    SplitOneSpace(scheme, token);
  }
}
