/** The Node backend's sign-in and sign-up handlers (book-mgr-nodejs/src/handler/auth.js).
    Login rejects an empty field before touching the database, then runs the same chain of
    checks as the Go handler; registration runs the lookup and the insert in one transaction
    whose every failure is a rollback answered with 500, except the duplicate email (409). */
module NodeAuth {
  import opened Records
  import opened Store
  import GoAuth

  /** A user as the login response shows it: the password is removed. */
  datatype UserView = UserView(id: int, role: string, email: string, createdAt: int, updatedAt: int)

  function View(u: User): (v: UserView)
    ensures v.id == u.id && v.role == u.role && v.email == u.email
  {
    UserView(u.id, u.role, u.email, u.createdAt, u.updatedAt)
  }

  /** handleUserLogin: an empty email, password or role is 400; a failing query 500; then
      unknown email 404, wrong role 403, wrong password 401. */
  function Login(us: seq<User>, email: string, password: string, role: string, dbOk: bool): (r: Result<UserView>)
    ensures r == Failed(BadRequest) <==> email == "" || password == "" || role == ""
    ensures r == Failed(ServerError) <==> email != "" && password != "" && role != "" && !dbOk
    ensures r.Done? ==> && FindByEmail(us, email).Some?
                        && var u := us[FindByEmail(us, email).value];
                           u.role == role && u.password == password && r.value == View(u)
  {
    if email == "" || password == "" || role == "" then Failed(BadRequest)
    else if !dbOk then Failed(ServerError)
    else match FindByEmail(us, email)
      case None => Failed(NotFound)
      case Some(k) =>
        if us[k].role != role then Failed(Forbidden)
        else if us[k].password != password then Failed(Unauthorized)
        else Done(View(us[k]))
  }

  /** A missing field is rejected whatever the table holds and whether or not the database
      is reachable: no lookup happens. */
  lemma MissingFieldRejectedBeforeLookup(us1: seq<User>, us2: seq<User>, email: string, password: string,
                                         role: string, ok1: bool, ok2: bool)
    requires email == "" || password == "" || role == ""
    ensures Login(us1, email, password, role, ok1) == Login(us2, email, password, role, ok2) == Failed(BadRequest)
  {
  }

  /** With every field given and the database up, the Node login reaches the same verdict as
      the Go login, and shows the same user. */
  lemma LoginAgreesWithGo(us: seq<User>, email: string, password: string, role: string)
    requires email != "" && password != "" && role != ""
    ensures Login(us, email, password, role, true).Failed? <==> GoAuth.Login(us, email, password, role, true).Failed?
    ensures Login(us, email, password, role, true).Failed? ==>
              Login(us, email, password, role, true).code == GoAuth.Login(us, email, password, role, true).code
    ensures Login(us, email, password, role, true).Done? ==>
              Login(us, email, password, role, true).value == View(GoAuth.Login(us, email, password, role, true).value)
  {
  }

  /** The unique index on email covers soft-deleted users too. */
  predicate EmailTaken(us: seq<User>, email: string) {
    exists i :: 0 <= i < |us| && us[i].email == email
  }

  /** handleUserRegister's outcome: 400 for an empty email or password; inside the
      transaction a failed lookup is 500, a live user with the email 409, and the insert fails
      (500) when the email is not valid, when a deleted user still holds it, or when the write
      or the commit fails. `emailValid` is the model's validator verdict. */
  function RegisterVerdict(us: seq<User>, email: string, password: string, emailValid: bool,
                           fault: Option<Step>): (c: Code)
    ensures c == BadRequest <==> email == "" || password == ""
    ensures c == Conflict <==> email != "" && password != "" && fault != Some(Read) && FindByEmail(us, email).Some?
    ensures c == Ok <==> && email != "" && password != "" && emailValid && !EmailTaken(us, email)
                         && fault !in {Some(Read), Some(WriteUser), Some(Commit)}
    ensures c in {BadRequest, Conflict, ServerError, Ok}
  {
    if email == "" || password == "" then BadRequest
    else if fault == Some(Read) then ServerError
    else if FindByEmail(us, email).Some? then Conflict
    else if !emailValid || EmailTaken(us, email) then ServerError
    else if fault == Some(WriteUser) || fault == Some(Commit) then ServerError
    else Ok
  }

  /** A user deleted earlier keeps their email: registering it again is neither a conflict
      nor a success. */
  lemma DeletedEmailCannotBeReused(us: seq<User>, email: string, password: string, emailValid: bool, i: int)
    requires email != "" && password != ""
    requires 0 <= i < |us| && us[i].email == email && FindByEmail(us, email).None?
    ensures RegisterVerdict(us, email, password, emailValid, None) == ServerError
  {
  }

  /** handleUserRegister: on Ok exactly one user is added, with role "user", and returned
      as stored (the response carries the password); otherwise the table is as it was. */
  method Register(db: Db, email: string, password: string, emailValid: bool, now: int, fault: Option<Step>)
    returns (r: Result<User>)
    requires db.Valid()
    modifies db
    ensures db.Valid()
    ensures r.Failed? <==> RegisterVerdict(old(db.users), email, password, emailValid, fault) != Ok
    ensures r.Failed? ==> r.code == RegisterVerdict(old(db.users), email, password, emailValid, fault)
                          && db.users == old(db.users) && db.nextUserId == old(db.nextUserId)
    ensures r.Done? ==> && r.value == User(old(db.nextUserId), UserRole, email, password, now, now, None)
                        && db.users == old(db.users) + [r.value]
    ensures db.books == old(db.books) && db.histories == old(db.histories)
  {
    var verdict := RegisterVerdict(db.users, email, password, emailValid, fault);
    if verdict != Ok {
      return Failed(verdict);
    }
    var row := User(0, UserRole, email, password, now, now, None);
    var id := db.InsertUser(row);
    r := Done(row.(id := id));
  }

  /** A new user can log in straight away as a plain user. */
  lemma RegisteredUserCanLogIn(us: seq<User>, u: User)
    requires !EmailTaken(us, u.email) && u.email != "" && u.password != ""
    requires u.deletedAt.None? && u.role == UserRole
    ensures Login(us + [u], u.email, u.password, UserRole, true) == Done(View(u))
  {
    GoAuth.FoundAfterAppend(us, u);
  }
}
