/**
 * The request handlers of the task manager: registration, login and logout,
 * a user's own task list, and the admin panel.
 *
 * The database is a `TaskApp` object holding the `users` and `tasks` tables;
 * every handler that writes rows is a method of it. The client's session is a
 * `Session` object passed to each handler, since every client brings its own.
 * Handlers that only read are functions. A handler's reply is a `Response`:
 * a redirect, a rendered page (with the data it shows), 403 or 404.
 */
module TaskManager {
  import opened Text
  import opened Passwords
  import opened Database

  /** A submitted form: field name to value. */
  type Form = map<string, string>

  /** `request.form.get(key, '')`. */
  function Field(form: Form, key: string): string {
    if key in form then form[key] else ""
  }

  datatype Verb = Get | Post

  /** The targets handlers redirect to. */
  datatype Endpoint = LoginPage | DashboardPage | TasksPage | AdminUsersPage | AdminTasksPage

  /** The pages handlers render, with the data each template receives. */
  datatype View =
    | PublicIndex
    | RegisterForm
    | LoginForm
    | DashboardView(username: Option<string>, tasksCount: nat, completedCount: nat)
    | TaskListView(taskIds: seq<TaskId>)
    | AddTaskForm
    | EditTaskForm(taskId: TaskId)
    | AdminDashboardView(usersCount: nat, allTasksCount: nat)
    | AdminUserListView(userIds: seq<UserId>)
    | AdminTaskListView(allTaskIds: seq<TaskId>)
    | AdminUserTaskListView(user: UserId, userTaskIds: seq<TaskId>)

  datatype Response = Redirect(to: Endpoint) | Render(view: View) | Forbidden | NotFound

  /** The account `init_db` creates. */
  const AdminName: string := "admin"
  const AdminEmail: string := "admin@example.com"
  const AdminPassword: string := "admin123"

  /** A client's session: the keys `user_id`, `username` and `role`, each possibly absent. */
  class Session {
    var userId: Option<UserId>
    var username: Option<string>
    var role: Option<Role>

    predicate IsEmpty()
      reads this
    {
      userId.None? && username.None? && role.None?
    }

    /** A new client's session holds nothing. */
    constructor ()
      ensures IsEmpty()
    {
      userId, username, role := None, None, None;
    }

    /** What `login_required` lets through: the session holds `user_id`. */
    predicate LoggedIn()
      reads this
    {
      userId.Some?
    }

    /** What `admin_required` lets through: `user_id` is present and `role` is 'admin'. */
    predicate IsAdmin()
      reads this
    {
      userId.Some? && role == Some(Admin)
    }

    /** The check of `edit_task` and `delete_task`: the session's user owns the task, or is an admin. */
    predicate MayChange(t: Task)
      reads this
      requires LoggedIn()
    {
      t.userId == userId.value || role == Some(Admin)
    }

    /** `session.clear()`. */
    method Clear()
      modifies this
      ensures IsEmpty()
    {
      userId, username, role := None, None, None;
    }
  }

  /** Where `edit_task` and `delete_task` send the client after a change. */
  function AfterTaskChange(role: Option<Role>): Endpoint {
    if role == Some(Admin) then AdminTasksPage else TasksPage
  }

  /** The fields `register` reads from its form, cleaned as it cleans them. */
  datatype Registration = Registration(username: string, email: string, password: string, confirm: string)

  function ReadRegistration(form: Form): (reg: Registration)
    ensures reg.username == Strip(Field(form, "username"))
    ensures reg.email == Lower(Strip(Field(form, "email")))
    ensures reg.password == Field(form, "password") && reg.confirm == Field(form, "confirm")
  {
    Registration(Strip(Field(form, "username")), Lower(Strip(Field(form, "email"))),
                 Field(form, "password"), Field(form, "confirm"))
  }

  /** Why `register` turns a submission away. */
  datatype Rejection = MissingField | PasswordMismatch | AlreadyExists

  /** The three checks of `register`, in the order it makes them. */
  function CheckRegistration(users: UserTable, reg: Registration): (r: Option<Rejection>)
    ensures r.None? ==> !Taken(users, reg.username, reg.email) && reg.password == reg.confirm
    ensures r.None? ==> reg.username != [] && reg.email != [] && reg.password != []
  {
    if reg.username == [] || reg.email == [] || reg.password == [] then Some(MissingField)
    else if reg.password != reg.confirm then Some(PasswordMismatch)
    else if Taken(users, reg.username, reg.email) then Some(AlreadyExists)
    else None
  }

  /**
   * A submission is turned away exactly when the username or the email is
   * blank (white space only), the password is empty, the confirmation differs,
   * or some user already has the cleaned username or email.
   */
  lemma RegistrationRejected(users: UserTable, form: Form)
    ensures CheckRegistration(users, ReadRegistration(form)).Some? <==>
      || AllSpace(Field(form, "username"))
      || AllSpace(Field(form, "email"))
      || Field(form, "password") == []
      || Field(form, "password") != Field(form, "confirm")
      || Taken(users, Strip(Field(form, "username")), Lower(Strip(Field(form, "email"))))
  {
  }

  /** The row `register` inserts. */
  function NewUser(kdf: Kdf, reg: Registration, salt: string, role: Role, now: int): (u: User)
    ensures u.username == reg.username && u.email == reg.email && u.role == role
    ensures CheckPasswordHash(kdf, u.password, reg.password)
  {
    User(reg.username, reg.email, GeneratePasswordHash(kdf, salt, reg.password), role, now)
  }

  /**
   * After a successful registration, logging in with the same username (as
   * typed) and password finds the new user and accepts the password.
   */
  lemma RegisteredUserCanLogIn(kdf: Kdf, users: UserTable, id: UserId, form: Form, salt: string,
                               role: Role, now: int)
    requires forall k :: k in users ==> k < id
    requires CheckRegistration(users, ReadRegistration(form)).None?
    ensures var reg := ReadRegistration(form);
            var after := users[id := NewUser(kdf, reg, salt, role, now)];
            var found := FindUsername(after, Strip(Field(form, "username")), 0, id + 1);
            found == Some(id) && CheckPasswordHash(kdf, after[found.value].password, Field(form, "password"))
  {
    var reg := ReadRegistration(form);
    var after := users[id := NewUser(kdf, reg, salt, role, now)];
    StripIdempotent(Field(form, "username"));
    var found := FindUsername(after, Strip(Field(form, "username")), 0, id + 1);
    assert found.Some? by {
      assert id in after && after[id].username == reg.username;
    }
  }

  /**
   * With a key-derivation function free of collisions, logging in as a newly
   * registered user succeeds exactly with the username (up to white space at
   * its ends) and the password given at registration.
   */
  lemma {:induction false} LoginAcceptsOnlyRegistered(kdf: Kdf, users: UserTable, id: UserId, regForm: Form,
                                                       salt: string, role: Role, now: int, loginForm: Form)
    requires CollisionFree(kdf)
    requires forall k :: k in users ==> k < id
    requires CheckRegistration(users, ReadRegistration(regForm)).None?
    ensures var after := users[id := NewUser(kdf, ReadRegistration(regForm), salt, role, now)];
            var name := Strip(Field(loginForm, "username"));
            (FindUsername(after, name, 0, id + 1) == Some(id)
             && CheckPasswordHash(kdf, after[id].password, Field(loginForm, "password")))
            <==>
            (name == Strip(Field(regForm, "username"))
             && Field(loginForm, "password") == Field(regForm, "password"))
  {
    var reg := ReadRegistration(regForm);
    var after := users[id := NewUser(kdf, reg, salt, role, now)];
    var name := Strip(Field(loginForm, "username"));
    CheckAcceptsOnlyOriginal(kdf, salt, reg.password, Field(loginForm, "password"));
    if name == reg.username {
      var found := FindUsername(after, name, 0, id + 1);
      assert found.Some? by {
        assert id in after && after[id].username == name;
      }
    }
  }

  /** The administrator account `init_db` adds. */
  function DefaultAdmin(kdf: Kdf, salt: string, now: int): (u: User)
    ensures u.username == AdminName && u.email == AdminEmail && u.role == Admin
    ensures CheckPasswordHash(kdf, u.password, AdminPassword)
  {
    User(AdminName, AdminEmail, GeneratePasswordHash(kdf, salt, AdminPassword), Admin, now)
  }

  /** The users after `init_db(create_admin=True)`: `admin` is added under `id` unless a user has that name. */
  function SeedAdmin(users: UserTable, id: UserId, admin: User): (r: UserTable)
    requires admin.username == AdminName
    ensures HasUsername(r, AdminName)
    ensures HasUsername(users, AdminName) ==> r == users
    ensures !HasUsername(users, AdminName) ==> r == users[id := admin]
  {
    if HasUsername(users, AdminName) then users
    else
      assert id in users[id := admin];
      users[id := admin]
  }

  /** Seeding twice, with any id, salt or timestamp the second time, is seeding once. */
  lemma SeedAdminIdempotent(users: UserTable, id1: UserId, admin1: User, id2: UserId, admin2: User)
    requires admin1.username == AdminName && admin2.username == AdminName
    ensures SeedAdmin(SeedAdmin(users, id1, admin1), id2, admin2) == SeedAdmin(users, id1, admin1)
  {
  }

  /** Seeding keeps accounts unique when no user already has the admin email. */
  lemma SeedAdminKeepsUnique(users: UserTable, id: UserId, admin: User)
    requires UniqueAccounts(users)
    requires id !in users
    requires admin.username == AdminName
    requires forall k :: k in users ==> users[k].email != admin.email
    ensures UniqueAccounts(SeedAdmin(users, id, admin))
  {
  }

  /**
   * `init_db` looks only at usernames: when a user not named `admin` already
   * holds the admin email, seeding gives two users the same email.
   */
  lemma SeedAdminCanDuplicateEmail(kdf: Kdf, salt: string, now: int, other: User)
    requires other.username != AdminName && other.email == AdminEmail
    ensures UniqueAccounts(map[1 := other])
    ensures !UniqueAccounts(SeedAdmin(map[1 := other], 2, DefaultAdmin(kdf, salt, now)))
  {
    var users := map[1 := other];
    assert !HasUsername(users, AdminName) by {
      forall k | k in users ensures users[k].username != AdminName {
        assert k == 1;
      }
    }
    var after := SeedAdmin(users, 2, DefaultAdmin(kdf, salt, now));
    assert 1 in after && 2 in after && after[1].email == after[2].email;
  }

  /** Every task owned by someone other than `uid` is still there, unchanged. */
  ghost predicate OthersTasksKept(before: TaskTable, after: TaskTable, uid: Option<UserId>) {
    forall id :: id in before && Some(before[id].userId) != uid ==> id in after && after[id] == before[id]
  }

  class TaskApp {
    /** The key-derivation function of the password hasher. */
    const kdf: Kdf
    /** The column defaults of `users.role` and `tasks.done`, which the schema sets. */
    const defaultRole: Role
    const defaultDone: bool

    var users: UserTable
    var tasks: TaskTable
    /** The ids the database gives the next new rows. */
    var nextUserId: nat
    var nextTaskId: nat

    /** Every row's id is below the next id of its table, so new ids are fresh. */
    ghost predicate Valid()
      reads this
    {
      && (forall id :: id in users ==> id < nextUserId)
      && (forall id :: id in tasks ==> id < nextTaskId)
    }

    /** Empty tables, as `db.create_all()` leaves a new database. */
    constructor (kdf: Kdf, defaultRole: Role, defaultDone: bool)
      ensures Valid()
      ensures this.kdf == kdf && this.defaultRole == defaultRole && this.defaultDone == defaultDone
      ensures users == map[] && tasks == map[] && nextUserId == 1 && nextTaskId == 1
    {
      this.kdf, this.defaultRole, this.defaultDone := kdf, defaultRole, defaultDone;
      users, tasks := map[], map[];
      nextUserId, nextTaskId := 1, 1;
    }

    /** `index`: logged-in clients go to the dashboard, others see the public page. */
    function Index(session: Session): (resp: Response)
      reads session
      ensures session.LoggedIn() <==> resp.Redirect?
      ensures resp.Redirect? ==> resp.to == DashboardPage
      ensures resp.Render? ==> resp.view == PublicIndex
    {
      if session.LoggedIn() then Redirect(DashboardPage) else Render(PublicIndex)
    }

    /**
     * `register`. A logged-in client is sent to the dashboard. A submission
     * that fails a check re-renders the form and adds no one; otherwise exactly
     * one user is added, with the hash of the password, and the client is sent
     * to the login page. The session is never touched.
     */
    method Register(session: Session, verb: Verb, form: Form, salt: string, now: int) returns (resp: Response)
      requires Valid()
      modifies this`users, this`nextUserId
      ensures Valid()
      ensures var reg := ReadRegistration(form);
        if session.LoggedIn() then
          resp == Redirect(DashboardPage) && users == old(users) && nextUserId == old(nextUserId)
        else if verb == Get || CheckRegistration(old(users), reg).Some? then
          resp == Render(RegisterForm) && users == old(users) && nextUserId == old(nextUserId)
        else
          && resp == Redirect(LoginPage)
          && users == old(users)[old(nextUserId) := NewUser(kdf, reg, salt, defaultRole, now)]
          && nextUserId == old(nextUserId) + 1
      ensures UniqueAccounts(old(users)) ==> UniqueAccounts(users)
      ensures unchanged(session)
    {
      if session.LoggedIn() {
        return Redirect(DashboardPage);
      }
      if verb == Get {
        return Render(RegisterForm);
      }
      var username := Strip(Field(form, "username"));
      var email := Lower(Strip(Field(form, "email")));
      var password := Field(form, "password");
      var confirm := Field(form, "confirm");
      if username == [] || email == [] || password == [] {
        return Render(RegisterForm);
      }
      if password != confirm {
        return Render(RegisterForm);
      }
      if Taken(users, username, email) {
        return Render(RegisterForm);
      }
      var hashed := GeneratePasswordHash(kdf, salt, password);
      var user := User(username, email, hashed, defaultRole, now);
      if UniqueAccounts(users) {
        InsertUserKeepsUnique(users, nextUserId, user);
      }
      users := users[nextUserId := user];
      nextUserId := nextUserId + 1;
      resp := Redirect(LoginPage);
    }

    /**
     * `login`. The session changes only when no one is logged in on it, the
     * form is submitted, a user has the stripped username, and the password
     * passes the hash check; it then holds that user's id, name and role.
     */
    method Login(session: Session, verb: Verb, form: Form) returns (resp: Response)
      requires Valid()
      modifies session
      ensures var found := FindUsername(users, Strip(Field(form, "username")), 0, nextUserId);
        if old(session.LoggedIn()) || verb == Get || found.None?
           || !CheckPasswordHash(kdf, users[found.value].password, Field(form, "password")) then
          && resp == (if old(session.LoggedIn()) then Redirect(DashboardPage) else Render(LoginForm))
          && unchanged(session)
        else
          && resp == Redirect(DashboardPage)
          && session.userId == Some(found.value)
          && session.username == Some(users[found.value].username)
          && session.role == Some(users[found.value].role)
      ensures !unchanged(session) ==>
        && session.userId.Some? && session.userId.value in users
        && users[session.userId.value].username == Strip(Field(form, "username"))
        && CheckPasswordHash(kdf, users[session.userId.value].password, Field(form, "password"))
    {
      if session.LoggedIn() {
        return Redirect(DashboardPage);
      }
      if verb == Get {
        return Render(LoginForm);
      }
      var username := Strip(Field(form, "username"));
      var password := Field(form, "password");
      var found := FindUsername(users, username, 0, nextUserId);
      if found.None? || !CheckPasswordHash(kdf, users[found.value].password, password) {
        return Render(LoginForm);
      }
      var user := users[found.value];
      session.userId := Some(found.value);
      session.username := Some(user.username);
      session.role := Some(user.role);
      resp := Redirect(DashboardPage);
    }

    /** `logout`: the session is left empty, whatever it held. */
    method Logout(session: Session) returns (resp: Response)
      modifies session
      ensures session.IsEmpty()
      ensures resp == Redirect(LoginPage)
    {
      session.Clear();
      resp := Redirect(LoginPage);
    }

    /**
     * `dashboard`: the counts of the session user's tasks and completed tasks,
     * or 404 when that user no longer exists. Completed never exceeds total.
     */
    function Dashboard(session: Session): (resp: Response)
      reads this, session
      ensures !session.LoggedIn() ==> resp == Redirect(LoginPage)
      ensures session.LoggedIn() && session.userId.value !in users ==> resp == NotFound
      ensures session.LoggedIn() && session.userId.value in users ==>
        && resp.Render? && resp.view.DashboardView?
        && resp.view.username == session.username
        && resp.view.tasksCount == |TasksOf(tasks, session.userId.value)|
        && resp.view.completedCount == |CompletedOf(tasks, session.userId.value)|
        && resp.view.completedCount <= resp.view.tasksCount
    {
      if !session.LoggedIn() then Redirect(LoginPage)
      else if session.userId.value !in users then NotFound
      else
        var uid := session.userId.value;
        CompletedAtMostTotal(tasks, uid);
        Render(DashboardView(session.username, |TasksOf(tasks, uid)|, |CompletedOf(tasks, uid)|))
    }

    /** `tasks`: the session user's tasks, newest first. */
    ghost function ListTasks(session: Session): (resp: Response)
      reads this, session
      ensures !session.LoggedIn() ==> resp == Redirect(LoginPage)
      ensures session.LoggedIn() ==>
        && resp.Render? && resp.view.TaskListView?
        && |resp.view.taskIds| == |TasksOf(tasks, session.userId.value)|
        && (forall id :: id in resp.view.taskIds <==> id in tasks && tasks[id].userId == session.userId.value)
        && (forall i, j :: 0 <= i < j < |resp.view.taskIds| ==>
              tasks[resp.view.taskIds[i]].createdAt >= tasks[resp.view.taskIds[j]].createdAt)
    {
      if !session.LoggedIn() then Redirect(LoginPage)
      else Render(TaskListView(NewestFirst(Stamps(tasks, (t: Task) => t.createdAt), TasksOf(tasks, session.userId.value))))
    }

    /**
     * `add_task`. With a title that is not blank, exactly one task is added,
     * owned by the session's user; otherwise nothing changes.
     */
    method AddTask(session: Session, verb: Verb, form: Form, now: int) returns (resp: Response)
      requires Valid()
      modifies this`tasks, this`nextTaskId
      ensures Valid()
      ensures var title := Strip(Field(form, "title"));
        if !session.LoggedIn() then
          resp == Redirect(LoginPage) && tasks == old(tasks) && nextTaskId == old(nextTaskId)
        else if verb == Get || title == [] then
          resp == Render(AddTaskForm) && tasks == old(tasks) && nextTaskId == old(nextTaskId)
        else
          && resp == Redirect(TasksPage)
          && tasks == old(tasks)[old(nextTaskId) :=
               Task(title, Strip(Field(form, "description")), defaultDone, session.userId.value, now)]
          && nextTaskId == old(nextTaskId) + 1
      ensures OthersTasksKept(old(tasks), tasks, session.userId)
      ensures OwnersExist(users, old(tasks)) && (session.LoggedIn() ==> session.userId.value in users) ==>
        OwnersExist(users, tasks)
    {
      if !session.LoggedIn() {
        return Redirect(LoginPage);
      }
      if verb == Get {
        return Render(AddTaskForm);
      }
      var title := Strip(Field(form, "title"));
      var description := Strip(Field(form, "description"));
      if title == [] {
        return Render(AddTaskForm);
      }
      var task := Task(title, description, defaultDone, session.userId.value, now);
      if OwnersExist(users, tasks) && session.userId.value in users {
        InsertTaskKeepsOwners(users, tasks, nextTaskId, task);
      }
      tasks := tasks[nextTaskId := task];
      nextTaskId := nextTaskId + 1;
      resp := Redirect(TasksPage);
    }

    /**
     * `edit_task`. Only the task's owner or an admin may change it (403
     * otherwise); a submission with a title that is not blank replaces the
     * title, description and done flag of that one task and nothing else.
     */
    method EditTask(session: Session, id: TaskId, verb: Verb, form: Form) returns (resp: Response)
      requires Valid()
      modifies this`tasks
      ensures Valid()
      ensures var title := Strip(Field(form, "title"));
        if !session.LoggedIn() then
          resp == Redirect(LoginPage) && tasks == old(tasks)
        else if id !in old(tasks) then
          resp == NotFound && tasks == old(tasks)
        else if !session.MayChange(old(tasks)[id]) then
          resp == Forbidden && tasks == old(tasks)
        else if verb == Get || title == [] then
          resp == Render(EditTaskForm(id)) && tasks == old(tasks)
        else
          && resp == Redirect(AfterTaskChange(session.role))
          && tasks == old(tasks)[id := old(tasks)[id].(title := title,
                                                       description := Strip(Field(form, "description")),
                                                       done := Field(form, "done") == "on")]
      ensures tasks.Keys == old(tasks).Keys
      ensures forall k :: k in tasks ==> tasks[k].userId == old(tasks)[k].userId && tasks[k].createdAt == old(tasks)[k].createdAt
      ensures !session.IsAdmin() ==> OthersTasksKept(old(tasks), tasks, session.userId)
      ensures OwnersExist(users, old(tasks)) ==> OwnersExist(users, tasks)
    {
      if !session.LoggedIn() {
        return Redirect(LoginPage);
      }
      if id !in tasks {
        return NotFound;
      }
      var task := tasks[id];
      if task.userId != session.userId.value && session.role != Some(Admin) {
        return Forbidden;
      }
      if verb == Get {
        return Render(EditTaskForm(id));
      }
      var title := Strip(Field(form, "title"));
      var description := Strip(Field(form, "description"));
      var done := Field(form, "done") == "on";
      if title == [] {
        return Render(EditTaskForm(id));
      }
      tasks := tasks[id := task.(title := title, description := description, done := done)];
      resp := Redirect(AfterTaskChange(session.role));
    }

    /** `delete_task`. Only the task's owner or an admin may delete it; exactly that task goes. */
    method DeleteTask(session: Session, id: TaskId) returns (resp: Response)
      requires Valid()
      modifies this`tasks
      ensures Valid()
      ensures
        if !session.LoggedIn() then
          resp == Redirect(LoginPage) && tasks == old(tasks)
        else if id !in old(tasks) then
          resp == NotFound && tasks == old(tasks)
        else if !session.MayChange(old(tasks)[id]) then
          resp == Forbidden && tasks == old(tasks)
        else
          resp == Redirect(AfterTaskChange(session.role)) && tasks == old(tasks) - {id}
      ensures !session.IsAdmin() ==> OthersTasksKept(old(tasks), tasks, session.userId)
      ensures OwnersExist(users, old(tasks)) ==> OwnersExist(users, tasks)
    {
      if !session.LoggedIn() {
        return Redirect(LoginPage);
      }
      if id !in tasks {
        return NotFound;
      }
      if tasks[id].userId != session.userId.value && session.role != Some(Admin) {
        return Forbidden;
      }
      tasks := tasks - {id};
      resp := Redirect(AfterTaskChange(session.role));
    }

    /** `admin_dashboard`: how many users and tasks there are. */
    function AdminDashboard(session: Session): (resp: Response)
      reads this, session
      ensures !session.IsAdmin() ==> resp == Redirect(LoginPage)
      ensures session.IsAdmin() ==> resp == Render(AdminDashboardView(|users|, |tasks|))
    {
      if !session.IsAdmin() then Redirect(LoginPage)
      else Render(AdminDashboardView(|users|, |tasks|))
    }

    /** `admin_users`: every user, newest first. */
    ghost function AdminUsers(session: Session): (resp: Response)
      reads this, session
      ensures !session.IsAdmin() ==> resp == Redirect(LoginPage)
      ensures session.IsAdmin() ==>
        && resp.Render? && resp.view.AdminUserListView?
        && |resp.view.userIds| == |users|
        && (forall id :: id in resp.view.userIds <==> id in users)
        && (forall i, j :: 0 <= i < j < |resp.view.userIds| ==>
              users[resp.view.userIds[i]].createdAt >= users[resp.view.userIds[j]].createdAt)
    {
      if !session.IsAdmin() then Redirect(LoginPage)
      else Render(AdminUserListView(NewestFirst(Stamps(users, (u: User) => u.createdAt), users.Keys)))
    }

    /**
     * `admin_delete_user`. An admin cannot delete their own account; any other
     * existing user is deleted together with every task they own, so no task
     * is left pointing at them.
     */
    method AdminDeleteUser(session: Session, uid: UserId) returns (resp: Response)
      requires Valid()
      modifies this`users, this`tasks
      ensures Valid()
      ensures
        if !session.IsAdmin() then
          resp == Redirect(LoginPage) && users == old(users) && tasks == old(tasks)
        else if uid !in old(users) then
          resp == NotFound && users == old(users) && tasks == old(tasks)
        else if session.userId == Some(uid) then
          resp == Redirect(AdminUsersPage) && users == old(users) && tasks == old(tasks)
        else
          && resp == Redirect(AdminUsersPage)
          && users == old(users) - {uid}
          && tasks == RemoveTasksOf(old(tasks), uid)
          && (forall id :: id in tasks ==> tasks[id].userId != uid)
      ensures session.IsAdmin() ==> (session.userId.value in users <==> session.userId.value in old(users))
      ensures UniqueAccounts(old(users)) ==> UniqueAccounts(users)
      ensures OwnersExist(old(users), old(tasks)) ==> OwnersExist(users, tasks)
    {
      if !session.IsAdmin() {
        return Redirect(LoginPage);
      }
      if uid !in users {
        return NotFound;
      }
      if Some(uid) == session.userId {
        return Redirect(AdminUsersPage);
      }
      if OwnersExist(users, tasks) {
        DeleteUserKeepsOwners(users, tasks, uid);
      }
      tasks := RemoveTasksOf(tasks, uid);
      users := users - {uid};
      resp := Redirect(AdminUsersPage);
    }

    /** `admin_tasks`: every task, newest first. */
    ghost function AdminTasks(session: Session): (resp: Response)
      reads this, session
      ensures !session.IsAdmin() ==> resp == Redirect(LoginPage)
      ensures session.IsAdmin() ==>
        && resp.Render? && resp.view.AdminTaskListView?
        && |resp.view.allTaskIds| == |tasks|
        && (forall id :: id in resp.view.allTaskIds <==> id in tasks)
        && (forall i, j :: 0 <= i < j < |resp.view.allTaskIds| ==>
              tasks[resp.view.allTaskIds[i]].createdAt >= tasks[resp.view.allTaskIds[j]].createdAt)
    {
      if !session.IsAdmin() then Redirect(LoginPage)
      else Render(AdminTaskListView(NewestFirst(Stamps(tasks, (t: Task) => t.createdAt), tasks.Keys)))
    }

    /** `admin_user_tasks`: one user's tasks, newest first, or 404 when there is no such user. */
    ghost function AdminUserTasks(session: Session, uid: UserId): (resp: Response)
      reads this, session
      ensures !session.IsAdmin() ==> resp == Redirect(LoginPage)
      ensures session.IsAdmin() && uid !in users ==> resp == NotFound
      ensures session.IsAdmin() && uid in users ==>
        && resp.Render? && resp.view.AdminUserTaskListView? && resp.view.user == uid
        && |resp.view.userTaskIds| == |TasksOf(tasks, uid)|
        && (forall id :: id in resp.view.userTaskIds <==> id in tasks && tasks[id].userId == uid)
        && (forall i, j :: 0 <= i < j < |resp.view.userTaskIds| ==>
              tasks[resp.view.userTaskIds[i]].createdAt >= tasks[resp.view.userTaskIds[j]].createdAt)
    {
      if !session.IsAdmin() then Redirect(LoginPage)
      else if uid !in users then NotFound
      else Render(AdminUserTaskListView(uid, NewestFirst(Stamps(tasks, (t: Task) => t.createdAt), TasksOf(tasks, uid))))
    }

    /**
     * `init_db`. With `createAdmin`, the `admin` account is added unless some
     * user is already named `admin`; afterwards one is, so a second run changes
     * nothing. Tasks are never touched.
     */
    method InitDb(createAdmin: bool, salt: string, now: int)
      requires Valid()
      modifies this`users, this`nextUserId
      ensures Valid()
      ensures users == if createAdmin then SeedAdmin(old(users), old(nextUserId), DefaultAdmin(kdf, salt, now))
                       else old(users)
      ensures nextUserId == if users == old(users) then old(nextUserId) else old(nextUserId) + 1
      ensures createAdmin ==> HasUsername(users, AdminName)
    {
      if createAdmin {
        if !HasUsername(users, AdminName) {
          var admin := DefaultAdmin(kdf, salt, now);
          assert nextUserId !in users;
          users := users[nextUserId := admin];
          nextUserId := nextUserId + 1;
        }
      }
    }
  }

  /**
   * Two clients against one database: the admin deletes a user who is still
   * logged in on another client. That client's session keeps the deleted id,
   * which is all `login_required` looks at, so its next `add_task` stores a
   * task whose owner no longer exists.
   */
  method DeletedUserStillAddsTask(app: TaskApp, admin: Session, victim: Session, now: int)
    requires app.Valid() && admin != victim
    requires admin.IsAdmin() && victim.LoggedIn() && victim.userId != admin.userId
    requires victim.userId.value in app.users
    modifies app
    ensures !OwnersExist(app.users, app.tasks)
  {
    var uid := victim.userId.value;
    var resp := app.AdminDeleteUser(admin, uid);
    assert uid !in app.users;
    var form := map["title" := "write report"];
    assert Strip(Field(form, "title")) != [] by {
      assert Field(form, "title") == "write report";
      assert !IsSpace(Field(form, "title")[0]);
    }
    resp := app.AddTask(victim, Post, form, now);
    assert app.tasks[old(app.nextTaskId)].userId == uid;
  }
}
