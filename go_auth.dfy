/** The Go backend's sign-in and sign-up handlers (book-mgr-backend/handler/univer/auth.go).
    Login is a fixed chain of checks over the first live user with the email; registration
    looks the email up and inserts a plain user inside one transaction. */
module GoAuth {
  import opened Records
  import opened Store

  /** HandleUserLogin: a failed lookup, whatever its cause, answers NotFound; then the role
      is compared, and only then the password. A successful login returns the user with the
      password blanked. */
  function Login(us: seq<User>, email: string, password: string, role: string, dbOk: bool): (r: Result<User>)
    ensures r == Failed(NotFound) <==> !dbOk || FindByEmail(us, email).None?
    ensures r == Failed(Forbidden) <==> dbOk && FindByEmail(us, email).Some?
                                        && us[FindByEmail(us, email).value].role != role
    ensures r == Failed(Unauthorized) <==> && dbOk && FindByEmail(us, email).Some?
                                           && us[FindByEmail(us, email).value].role == role
                                           && us[FindByEmail(us, email).value].password != password
    ensures r.Done? <==> && dbOk && FindByEmail(us, email).Some?
                         && us[FindByEmail(us, email).value].role == role
                         && us[FindByEmail(us, email).value].password == password
    ensures r.Done? ==> r.value == us[FindByEmail(us, email).value].(password := "")
  {
    if !dbOk then Failed(NotFound)
    else match FindByEmail(us, email)
      case None => Failed(NotFound)
      case Some(k) =>
        if us[k].role != role then Failed(Forbidden)
        else if us[k].password != password then Failed(Unauthorized)
        else Done(us[k].(password := ""))
  }

  /** The role decides before the password: a wrong role is Forbidden even when the password
      is wrong as well. */
  lemma RoleCheckedBeforePassword(us: seq<User>, email: string, password: string, role: string)
    requires FindByEmail(us, email).Some?
    requires us[FindByEmail(us, email).value].role != role
    requires us[FindByEmail(us, email).value].password != password
    ensures Login(us, email, password, role, true) == Failed(Forbidden)
  {
  }

  /** Login never hands out a password. */
  lemma LoginHidesPassword(us: seq<User>, email: string, password: string, role: string, dbOk: bool)
    requires Login(us, email, password, role, dbOk).Done?
    ensures Login(us, email, password, role, dbOk).value.password == ""
    ensures Login(us, email, password, role, dbOk).value.email == email
  {
  }

  /** A registered email, with its password and the role "user", logs in. */
  lemma RegisteredUserCanLogIn(us: seq<User>, u: User)
    requires FindByEmail(us, u.email).None? && u.deletedAt.None? && u.role == UserRole
    ensures Login(us + [u], u.email, u.password, UserRole, true) == Done(u.(password := ""))
  {
    FoundAfterAppend(us, u);
  }

  /** An email that no live user has is found at the appended row. */
  lemma FoundAfterAppend(us: seq<User>, u: User)
    requires FindByEmail(us, u.email).None? && u.deletedAt.None?
    ensures FindByEmail(us + [u], u.email) == Some(|us|)
  {
    var all := us + [u];
    assert all[|us|] == u;
    var k := FindByEmail(all, u.email);
    assert k.Some?;
  }

  /** The user row a registration inserts. */
  function NewUser(email: string, password: string, now: int): User {
    User(0, UserRole, email, password, now, now, None)
  }

  /** The outcome as HandleUserRegister computes it. The Create statement and the commit are
      the only writes; the commit's error is never looked at, so a failed commit still
      answers Ok. */
  function RegisterVerdict(us: seq<User>, email: string, fault: Option<Step>): (c: Code)
    ensures c == Conflict <==> fault != Some(Read) && FindByEmail(us, email).Some?
    ensures c == ServerError <==> fault == Some(Read) || (FindByEmail(us, email).None? && fault == Some(WriteUser))
    ensures c == Ok <==> fault != Some(Read) && fault != Some(WriteUser) && FindByEmail(us, email).None?
  {
    if fault == Some(Read) then ServerError
    else if FindByEmail(us, email).Some? then Conflict
    else if fault == Some(WriteUser) then ServerError
    else Ok
  }

  /** HandleUserRegister as written: the user is inserted when the whole transaction commits;
      when the commit fails nothing is stored, yet the answer is Ok. */
  method Register(db: Db, email: string, password: string, now: int, fault: Option<Step>) returns (code: Code)
    requires db.Valid()
    modifies db
    ensures db.Valid()
    ensures code == RegisterVerdict(old(db.users), email, fault)
    ensures code == Ok && fault != Some(Commit) ==>
              db.users == old(db.users) + [NewUser(email, password, now).(id := old(db.nextUserId))]
              && db.nextUserId == old(db.nextUserId) + 1
    ensures code != Ok || fault == Some(Commit) ==> db.users == old(db.users) && db.nextUserId == old(db.nextUserId)
    ensures db.books == old(db.books) && db.histories == old(db.histories)
  {
    code := RegisterVerdict(db.users, email, fault);
    if code == Ok && fault != Some(Commit) {
      var _ := db.InsertUser(NewUser(email, password, now));
    }
  }

  /** A failed commit is reported as a successful registration of a user that was never
      stored. */
  method CommitFailureReportsSuccess() returns (code: Code, stored: seq<User>)
    ensures code == Ok && stored == []
  {
    var db := new Db();
    code := Register(db, "a@b.c", "secret", 0, Some(Commit));
    stored := db.users;
  }

  /** Registration with the commit's result checked: a failed commit answers 500, and every
      Ok leaves exactly one new user. */
  method RegisterChecked(db: Db, email: string, password: string, now: int, fault: Option<Step>)
    returns (code: Code)
    requires db.Valid()
    modifies db
    ensures db.Valid()
    ensures code == (if fault == Some(Commit) && FindByEmail(old(db.users), email).None? then ServerError
                     else RegisterVerdict(old(db.users), email, fault))
    ensures code == Ok <==> db.users == old(db.users) + [NewUser(email, password, now).(id := old(db.nextUserId))]
    ensures code != Ok ==> db.users == old(db.users) && db.nextUserId == old(db.nextUserId)
    ensures db.books == old(db.books) && db.histories == old(db.histories)
  {
    code := RegisterVerdict(db.users, email, fault);
    if code == Ok && fault == Some(Commit) {
      code := ServerError;
    }
    if code == Ok {
      var _ := db.InsertUser(NewUser(email, password, now));
    }
  }

  /** With the commit checked, an email can be registered once: a second try is a Conflict. */
  lemma SecondRegistrationConflicts(us: seq<User>, email: string, password: string, now: int, id: int)
    requires FindByEmail(us, email).None?
    ensures RegisterVerdict(us + [NewUser(email, password, now).(id := id)], email, None) == Conflict
  {
    FoundAfterAppend(us, NewUser(email, password, now).(id := id));
  }
}
