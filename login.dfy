/** The login page: the `find` over the fetched users that picks the identity,
    and the `loading` flag around it. */
module Login {
  import opened Wrappers
  import opened Js
  import opened Records

  /** The two tabs of the page; the student tab is selected first. */
  datatype Tab = StudentTab | AdminTab

  function TabRole(t: Tab): string {
    match t
    case StudentTab => "student"
    case AdminTab => "admin"
  }

  /** The predicate of the `find`: e-mails equal ignoring case, passwords equal
      as strings, and the role equal to the tab's. */
  predicate Matches(u: User, email: string, password: string, tab: Tab)
    requires u.email.Some?
  {
    Lower(u.email.value) == Lower(email) && ToStr(u.password) == password && u.role == Some(TabRole(tab))
  }

  /** A user that the `find` looks at and passes over. */
  predicate PassedOver(u: User, email: string, password: string, tab: Tab) {
    u.email.Some? && !Matches(u, email, password, tab)
  }

  /** The outcome of the `find`: the index of the first match, no match, or the
      index of a user without an e-mail reached before any match
      (`toLowerCase` of undefined throws and the handler's catch runs). */
  datatype Outcome = Found(index: nat) | NotFound | Threw(at: nat)

  function FindUser(users: seq<User>, email: string, password: string, tab: Tab): (r: Outcome)
    ensures r.Found? ==> r.index < |users| && users[r.index].email.Some? && Matches(users[r.index], email, password, tab)
    ensures r.Found? ==> forall j :: 0 <= j < r.index ==> PassedOver(users[j], email, password, tab)
    ensures r.NotFound? ==> forall j :: 0 <= j < |users| ==> PassedOver(users[j], email, password, tab)
    ensures r.Threw? ==> r.at < |users| && users[r.at].email.None?
    ensures r.Threw? ==> forall j :: 0 <= j < r.at ==> PassedOver(users[j], email, password, tab)
  {
    if |users| == 0 then NotFound
    else
      var n := |users| - 1;
      var u := users[n];
      match FindUser(users[..n], email, password, tab)
      case Found(i) => Found(i)
      case Threw(i) => Threw(i)
      case NotFound =>
        if u.email.None? then Threw(n)
        else if Matches(u, email, password, tab) then Found(n)
        else NotFound
  }

  /** The e-mail typed in any ASCII case finds the same users. */
  lemma EmailIgnoresCase(u: User, email: string, password: string, tab: Tab)
    requires u.email.Some?
    ensures Matches(u, Upper(email), password, tab) == Matches(u, email, password, tab)
  {
    LowerOfUpper(email);
  }

  /** A password stored as a number matches its decimal spelling. */
  lemma NumericPasswordMatchesDigits(u: User, n: int, tab: Tab)
    requires u.email.Some? && u.password == Num(n) && u.role == Some(TabRole(tab))
    ensures Matches(u, u.email.value, ToStr(Num(n)), tab)
  {
  }

  /** No tab asks for the role "teacher", so such a user never signs in here. */
  lemma TeacherRoleNeverMatches(u: User, email: string, password: string, tab: Tab)
    requires u.email.Some? && u.role == Some("teacher")
    ensures !Matches(u, email, password, tab)
  {
  }

  class Page {
    var email: string
    var password: string
    var activeTab: Tab
    var loading: bool
    /** The identity held by the session once `setUser` is called. */
    var signedIn: Option<User>

    constructor (signedIn: Option<User>)
      ensures email == "" && password == "" && activeTab == StudentTab && !loading
      ensures this.signedIn == signedIn
    {
      email, password, activeTab, loading := "", "", StudentTab, false;
      this.signedIn := signedIn;
    }

    method SelectTab(t: Tab)
      modifies this
      ensures activeTab == t
      ensures email == old(email) && password == old(password) && loading == old(loading) && signedIn == old(signedIn)
    {
      activeTab := t;
    }

    method EnterCredentials(e: string, p: string)
      modifies this
      ensures email == e && password == p
      ensures activeTab == old(activeTab) && loading == old(loading) && signedIn == old(signedIn)
    {
      email, password := e, p;
    }

    /** `handleLogin`: `users` is `None` when fetching the users failed. The
        first matching user becomes the identity; otherwise the identity is
        left alone. `loading` is false afterwards in every case. */
    method HandleLogin(users: Option<seq<User>>)
      modifies this
      ensures !loading
      ensures users.Some? && FindUser(users.value, email, password, activeTab).Found?
              ==> signedIn == Some(users.value[FindUser(users.value, email, password, activeTab).index])
      ensures users.None? || !FindUser(users.value, email, password, activeTab).Found? ==> signedIn == old(signedIn)
      ensures email == old(email) && password == old(password) && activeTab == old(activeTab)
    {
      loading := true;
      if users.Some? {
        var outcome := FindUser(users.value, email, password, activeTab);
        if outcome.Found? {
          signedIn := Some(users.value[outcome.index]);
        }
      }
      loading := false;
    }
  }
}
