/** The client's navigation guard (book-mgr/src/router/index.ts): before every route change it
    sends a signed-out visitor to the login page, unless they are going to the login or
    register page, and sends a signed-in non-admin away from anything under /admin. */
module Router {
  import opened Records
  import opened Text

  datatype Decision = Allow | Redirect(path: string)

  const LoginPath: string := "/login"
  const RegisterPath: string := "/register"
  const AdminPrefix: string := "/admin"
  const UserHome: string := "/user/summary"

  /** The pages a signed-out visitor may open. */
  predicate IsOpen(path: string) {
    path == LoginPath || path == RegisterPath
  }

  /** `router.beforeEach`: the sign-in rule first, then the role rule (a plain `startsWith`,
      so "/administrator" counts as an admin page). */
  function Guard(authed: bool, role: string, path: string): (d: Decision)
    ensures d == Allow <==> (authed || IsOpen(path)) && (!IsPrefix(AdminPrefix, path) || role == AdminRole)
    ensures d.Redirect? ==> d.path == LoginPath || d.path == UserHome
  {
    if !authed && path != LoginPath && path != RegisterPath then Redirect(LoginPath)
    else if IsPrefix(AdminPrefix, path) && role != AdminRole then Redirect(UserHome)
    else Allow
  }

  /** A signed-out visitor is sent to the login page from every page but the two open ones. */
  lemma SignedOutGoesToLogin(role: string, path: string)
    requires !IsOpen(path)
    ensures Guard(false, role, path) == Redirect(LoginPath)
  {
  }

  /** The login and register pages open in every state. */
  lemma OpenPagesAlwaysAllowed(authed: bool, role: string, path: string)
    requires IsOpen(path)
    ensures Guard(authed, role, path) == Allow
  {
    assert !IsPrefix(AdminPrefix, path) by {
      assert path[..|AdminPrefix|] != AdminPrefix by {
        assert path[1] != AdminPrefix[1];
      }
    }
  }

  /** A signed-in non-admin is sent to the user home from every path starting with "/admin". */
  lemma NonAdminKeptOutOfAdmin(role: string, path: string)
    requires role != AdminRole && IsPrefix(AdminPrefix, path)
    ensures Guard(true, role, path) == Redirect(UserHome)
  {
  }

  /** The role rule is a prefix test, not a path-segment test. */
  lemma AdministratorIsAnAdminPage()
    ensures Guard(true, UserRole, "/administrator") == Redirect(UserHome)
  {
    assert "/administrator"[..|AdminPrefix|] == AdminPrefix;
  }

  /** A signed-in admin is never turned away. */
  lemma AdminNeverRedirected(path: string)
    ensures Guard(true, AdminRole, path) == Allow
  {
  }

  /** Following a redirect never redirects again: the target is allowed in the same state. */
  lemma NoRedirectLoops(authed: bool, role: string, path: string)
    requires Guard(authed, role, path).Redirect?
    ensures Guard(authed, role, Guard(authed, role, path).path) == Allow
  {
    var target := Guard(authed, role, path).path;
    if target == LoginPath {
      OpenPagesAlwaysAllowed(authed, role, target);
    } else {
      assert target[1] != AdminPrefix[1];
      assert target[..|AdminPrefix|] != AdminPrefix;
    }
  }
}
