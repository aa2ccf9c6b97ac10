/** The login gate (auth.js): a static catalog of three users, the exact
    three-field credential match, the page chosen after login, the session entry
    kept in session storage, and the page-access decision. */
module Auth {
  import opened Wrappers

  datatype User = User(username: string, password: string, role: string)

  /** The hard-coded users. */
  const Catalog: seq<User> := [
    User("staff1", "staff123", "staff"),
    User("admin1", "admin123", "admin"),
    User("owner", "owner123", "owner")
  ]

  /** The `find` test: all three fields equal, which makes the entry the input triple. */
  predicate Matches(u: User, username: string, password: string, role: string)
    ensures Matches(u, username, password, role) <==> u == User(username, password, role)
  {
    u.username == username && u.password == password && u.role == role
  }

  /** No entry before index `i` matches. */
  predicate FirstMatch(users: seq<User>, i: int, username: string, password: string, role: string)
    requires 0 <= i <= |users|
  {
    forall j :: 0 <= j < i ==> !Matches(users[j], username, password, role)
  }

  /** `users.find(...)`: the first entry equal to the input on all three fields. */
  function Find(users: seq<User>, username: string, password: string, role: string): (r: Option<User>)
    ensures r.None? <==> forall i :: 0 <= i < |users| ==> !Matches(users[i], username, password, role)
    ensures r.Some? ==> Matches(r.value, username, password, role)
    ensures r.Some? ==>
      exists i :: 0 <= i < |users| && users[i] == r.value && FirstMatch(users, i, username, password, role)
  {
    if users == [] then None
    else if Matches(users[0], username, password, role) then Some(users[0])
    else
      var r := Find(users[1..], username, password, role);
      assert forall i :: 1 <= i < |users| ==> users[i] == users[1..][i - 1];
      assert r.Some? ==>
        exists i :: 0 <= i < |users| && users[i] == r.value && FirstMatch(users, i, username, password, role) by {
        if r.Some? {
          var i :| 0 <= i < |users[1..]| && users[1..][i] == r.value
            && FirstMatch(users[1..], i, username, password, role);
          assert users[i + 1] == r.value;
          assert FirstMatch(users, i + 1, username, password, role);
        }
      }
      r
  }

  /** The page a successful login goes to; a role outside the three sends nowhere. */
  function LandingPage(role: string): (page: Option<string>)
    ensures page.Some? <==> role in {"staff", "admin", "owner"}
    ensures role == "staff" ==> page == Some("booking.html")
    ensures role in {"admin", "owner"} ==> page == Some("admin.html")
  {
    if role == "staff" then Some("booking.html")
    else if role == "admin" then Some("admin.html")
    else if role == "owner" then Some("admin.html")
    else None
  }

  /** Outcome of `checkAuth`: both denials alert and go to login.html. */
  datatype Verdict = Granted | NotLoggedIn | WrongRole

  const LoginPage := "login.html"

  /** `checkAuth(requiredRole)` on the current user; an empty required role is
      falsy in the source and so asks for no particular role. */
  function Decide(user: Option<User>, required: Option<string>): (v: Verdict)
    ensures user.None? <==> v == NotLoggedIn
    ensures user.Some? ==> (v == Granted <==> required.None? || required.value == "" || user.value.role == required.value)
  {
    match user
    case None => NotLoggedIn
    case Some(u) =>
      if required.Some? && required.value != "" && u.role != required.value then WrongRole else Granted
  }

  /** What session storage holds under the "user" key. */
  datatype StoredSession = Missing | Holds(user: User) | Corrupt

  /** The session entry of one browser tab. */
  class SessionStore {
    var entry: StoredSession

    constructor ()
      ensures entry == Missing
    {
      entry := Missing;
    }

    /** `getCurrentUser()`: the stored user, or None when the entry is absent or
        does not parse. */
    function CurrentUser(): (u: Option<User>)
      reads this
      ensures u.Some? <==> entry.Holds?
      ensures u.Some? ==> u.value == entry.user
    {
      match entry
      case Holds(x) => Some(x)
      case _ => None
    }

    /** `checkAuth(requiredRole)`: the returned flag, and the page the browser is
        sent to, login.html on either denial and none when access is granted. */
    function CheckAuth(required: Option<string>): (result: (bool, Option<string>))
      reads this
      ensures !entry.Holds? ==> !result.0
      ensures result.0 <==> Decide(CurrentUser(), required) == Granted
      ensures result.1 == if result.0 then None else Some(LoginPage)
    {
      var ok := Decide(CurrentUser(), required) == Granted;
      (ok, if ok then None else Some(LoginPage))
    }

    /** `login()`: on a catalog match the session holds the matched user and the
        page for the chosen role is returned; otherwise nothing changes. */
    method Login(username: string, password: string, role: string) returns (target: Option<string>)
      modifies this
      ensures Find(Catalog, username, password, role).Some? ==>
        entry == Holds(Find(Catalog, username, password, role).value) && target == LandingPage(role)
      ensures Find(Catalog, username, password, role).None? ==> entry == old(entry) && target == None
    {
      var found := Find(Catalog, username, password, role);
      match found
      case Some(u) =>
        entry := Holds(u);
        target := LandingPage(role);
      case None =>
        target := None;
    }

    /** `logout()`: the entry is removed and the page goes to login.html. */
    method Logout() returns (target: string)
      modifies this
      ensures entry == Missing && target == LoginPage
      ensures CurrentUser() == None
      ensures forall required :: CheckAuth(required) == (false, Some(LoginPage))
    {
      entry := Missing;
      target := LoginPage;
    }
  }

  // ---------------------------------------------------------------------------
  // Properties

  /** No two catalog entries share a username. */
  lemma CatalogUsernamesDistinct()
    ensures forall i, j :: 0 <= i < j < |Catalog| ==> Catalog[i].username != Catalog[j].username
  {
  }

  /** The catalog holds one user for each of the roles staff, admin and owner. */
  lemma CatalogRoles()
    ensures |Catalog| == 3
    ensures forall u :: u in Catalog ==> u.role in {"staff", "admin", "owner"}
    ensures forall i, j :: 0 <= i < j < |Catalog| ==> Catalog[i].role != Catalog[j].role
  {
  }

  /** Hence at most one entry can match a given input. */
  lemma CatalogMatchUnique(username: string, password: string, role: string, i: int, j: int)
    requires 0 <= i < |Catalog| && 0 <= j < |Catalog|
    requires Matches(Catalog[i], username, password, role) && Matches(Catalog[j], username, password, role)
    ensures i == j
  {
  }

  /** Login succeeds exactly for the three catalog triples. */
  lemma LoginSucceedsIff(username: string, password: string, role: string)
    ensures Find(Catalog, username, password, role).Some? <==>
      User(username, password, role) in Catalog
    ensures Find(Catalog, username, password, role).Some? ==>
      Find(Catalog, username, password, role).value == User(username, password, role)
  {
    var r := Find(Catalog, username, password, role);
    if User(username, password, role) in Catalog {
      var i :| 0 <= i < |Catalog| && Catalog[i] == User(username, password, role);
      assert Matches(Catalog[i], username, password, role);
    }
  }

  /** A valid username and password under the wrong role is rejected. */
  lemma StaffAsAdminRejected()
    ensures Find(Catalog, "staff1", "staff123", "admin") == None
  {
  }

  /** After logging in with a role, the session user passes the check for that
      role and for no role given, fails it for every other non-empty role, and the
      landing page follows the role. */
  lemma LoginGrantsItsRole(username: string, password: string, role: string, other: string)
    requires Find(Catalog, username, password, role).Some?
    requires other != "" && other != role
    ensures var u := Find(Catalog, username, password, role);
      Decide(u, Some(role)) == Granted && Decide(u, None) == Granted
      && Decide(u, Some(other)) == WrongRole
      && LandingPage(role) == Some(if role == "staff" then "booking.html" else "admin.html")
  {
    LoginSucceedsIff(username, password, role);
  }
}
