/** The sign-in decision and the route guard of `auth.ts`. The user table is
    a map from e-mail to user (`findUnique` on the unique `email`), and the
    password check of `src/utils/password.ts` is a predicate passed in. */
module Auth {
  import opened Base
  import opened Text

  datatype User = User(id: string, email: string, name: string, password: Option<string>)

  /** The submitted form; a field may be missing. */
  datatype Credentials = Credentials(email: Option<string>, password: Option<string>)

  datatype AuthError = InvalidCredentials | NoPassword

  /** `null`, a thrown error, or the signed-in user. */
  datatype AuthOutcome = Rejected | Failed(error: AuthError) | SignedIn(user: User)

  /** A form field is truthy: present and not empty. */
  predicate Given(field: Option<string>)
  {
    field.Some? && field.value != ""
  }

  /** `authorize`: missing credentials give `null`; an unknown e-mail, a
      user without a stored password and a wrong password are errors, in that
      order; otherwise the looked-up user signs in. */
  function Authorize(credentials: Option<Credentials>, users: map<string, User>,
                     verify: (string, string) -> bool): (r: AuthOutcome)
    ensures r == Rejected <==>
      credentials.None? || !Given(credentials.value.email) || !Given(credentials.value.password)
    ensures r == Failed(InvalidCredentials) <==>
      && credentials.Some? && Given(credentials.value.email) && Given(credentials.value.password)
      && (|| credentials.value.email.value !in users
          || (Given(users[credentials.value.email.value].password)
              && !verify(credentials.value.password.value, users[credentials.value.email.value].password.value)))
    ensures r == Failed(NoPassword) <==>
      && credentials.Some? && Given(credentials.value.email) && Given(credentials.value.password)
      && credentials.value.email.value in users && !Given(users[credentials.value.email.value].password)
    ensures r.SignedIn? ==>
      var c := credentials.value;
      && Given(c.email) && Given(c.password) && c.email.value in users
      && r.user == users[c.email.value]
      && Given(r.user.password) && verify(c.password.value, r.user.password.value)
  {
    if credentials.None? || !Given(credentials.value.email) || !Given(credentials.value.password) then Rejected
    else
      var email, password := credentials.value.email.value, credentials.value.password.value;
      if email !in users then Failed(InvalidCredentials)
      else
        var user := users[email];
        if !Given(user.password) then Failed(NoPassword)
        else if !verify(password, user.password.value) then Failed(InvalidCredentials)
        else SignedIn(user)
  }

  /** The route prefixes that need a signed-in user. */
  const ProtectedRoutes: seq<string> := ["/dashboard"]

  predicate IsProtectedRoute(path: string)
  {
    exists i :: 0 <= i < |ProtectedRoutes| && IsPrefix(ProtectedRoutes[i], path)
  }

  /** With the one protected prefix, a route is protected exactly when its
      path starts with `/dashboard`. */
  lemma ProtectedIffDashboardPrefix(path: string)
    ensures IsProtectedRoute(path) <==> IsPrefix("/dashboard", path)
  {
    if IsPrefix("/dashboard", path) {
      assert IsPrefix(ProtectedRoutes[0], path);
    }
  }

  /** The `authorized` callback: a protected route needs a session user;
      every other route is open. */
  function Authorized(path: string, hasUser: bool): (r: bool)
    ensures !r <==> IsPrefix("/dashboard", path) && !hasUser
  {
    assert IsProtectedRoute(path) <==> IsPrefix(ProtectedRoutes[0], path);
    if IsProtectedRoute(path) && !hasUser then false else true
  }

  /** The test is a plain prefix test: a path that merely begins with the
      same letters is guarded too, and the public catalogue is not. */
  lemma PrefixGuard()
    ensures !Authorized("/dashboardX", false)
    ensures !Authorized("/dashboard/livros", false)
    ensures Authorized("/dashboard", true)
    ensures Authorized("/catalogo", false)
  {
    assert IsPrefix("/dashboard", "/dashboardX");
    assert IsPrefix("/dashboard", "/dashboard/livros");
    assert !IsPrefix("/dashboard", "/catalogo") by {
      assert "/catalogo"[1] != "/dashboard"[1];
    }
  }
}
