/** The `/dashboard` route of the router: which page a signed-in identity sees. */
module App {
  import opened Wrappers
  import opened Records
  import Login

  datatype Screen = RedirectTo(path: string) | TeacherScreen | StudentScreen

  /** `!user ? <Navigate to="/"/> : (admin or teacher ? teacher page : student page)` */
  function DashboardRoute(user: Option<User>): (r: Screen)
    ensures r == RedirectTo("/") <==> user.None?
    ensures r == TeacherScreen <==> user.Some? && (user.value.role == Some("admin") || user.value.role == Some("teacher"))
    ensures r == StudentScreen <==> user.Some? && user.value.role != Some("admin") && user.value.role != Some("teacher")
  {
    if user.None? then RedirectTo("/")
    else if user.value.role == Some("admin") || user.value.role == Some("teacher") then TeacherScreen
    else StudentScreen
  }

  /** Whoever signs in lands on the page of the tab they signed in from: the
      "admin" tab leads to the teacher page, the student tab to the student page. */
  lemma SignInLandsOnTabPage(users: seq<User>, email: string, password: string, tab: Login.Tab)
    requires Login.FindUser(users, email, password, tab).Found?
    ensures var u := users[Login.FindUser(users, email, password, tab).index];
            DashboardRoute(Some(u)) == if tab == Login.AdminTab then TeacherScreen else StudentScreen
  {
  }
}
