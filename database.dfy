/**
 * The two tables of the task manager, `users` and `tasks`, as maps from row
 * id to row, and the queries the request handlers run against them.
 */
module Database {
  import opened Passwords

  datatype Option<+T> = None | Some(value: T)

  type UserId = nat
  type TaskId = nat

  /** The two values of `users.role`: 'user' and 'admin'. */
  datatype Role = Member | Admin

  /** A row of `users`; `createdAt` is the abstract timestamp the database put in `created_at`. */
  datatype User = User(username: string, email: string, password: PasswordHash, role: Role, createdAt: int)

  /** A row of `tasks`; `userId` is the id of the owning user. */
  datatype Task = Task(title: string, description: string, done: bool, userId: UserId, createdAt: int)

  type UserTable = map<UserId, User>
  type TaskTable = map<TaskId, Task>

  /** Some user has this username or this email. */
  predicate Taken(users: UserTable, username: string, email: string) {
    exists id :: id in users && (users[id].username == username || users[id].email == email)
  }

  /** Some user has this username. */
  predicate HasUsername(users: UserTable, username: string) {
    exists id :: id in users && users[id].username == username
  }

  /** No two users share a username, and no two share an email. */
  ghost predicate UniqueAccounts(users: UserTable) {
    forall a, b :: a in users && b in users && a != b ==>
      users[a].username != users[b].username && users[a].email != users[b].email
  }

  /** Every task's owner is a user. */
  ghost predicate OwnersExist(users: UserTable, tasks: TaskTable) {
    forall id :: id in tasks ==> tasks[id].userId in users
  }

  /** Adding a user whose username and email are not taken keeps accounts unique. */
  lemma InsertUserKeepsUnique(users: UserTable, id: UserId, u: User)
    requires UniqueAccounts(users)
    requires id !in users
    requires !Taken(users, u.username, u.email)
    ensures UniqueAccounts(users[id := u])
  {
  }

  /**
   * `User.query.filter_by(username=name).first()`, scanning ids `from` up to
   * `bound` in order: the lowest id whose username is `name`, if any.
   */
  function FindUsername(users: UserTable, name: string, from: nat, bound: nat): (r: Option<UserId>)
    ensures r.Some? ==> from <= r.value < bound && r.value in users && users[r.value].username == name
    ensures r.Some? ==> forall id :: from <= id < r.value && id in users ==> users[id].username != name
    ensures r.None? ==> forall id :: from <= id < bound && id in users ==> users[id].username != name
    decreases bound - from
  {
    if from >= bound then None
    else if from in users && users[from].username == name then Some(from)
    else FindUsername(users, name, from + 1, bound)
  }

  /**
   * With unique usernames and every id below `bound`, the lookup by username
   * finds a user exactly when that user has the username.
   */
  lemma FindUsernameExact(users: UserTable, name: string, bound: nat, id: UserId)
    requires UniqueAccounts(users)
    requires forall k :: k in users ==> k < bound
    ensures FindUsername(users, name, 0, bound) == Some(id) <==> id in users && users[id].username == name
  {
  }

  /** The ids of the tasks `uid` owns: `Task.query.filter_by(user_id=uid)`. */
  function TasksOf(tasks: TaskTable, uid: UserId): (ids: set<TaskId>)
    ensures forall id :: id in ids <==> id in tasks && tasks[id].userId == uid
  {
    set id | id in tasks && tasks[id].userId == uid
  }

  /**
   * The ids of the completed tasks `uid` owns: `Task.query.filter_by(user_id=uid, done=True)`.
   * They are those of the user's tasks whose done flag is set.
   */
  function CompletedOf(tasks: TaskTable, uid: UserId): (ids: set<TaskId>)
    ensures ids <= TasksOf(tasks, uid)
    ensures forall id :: id in TasksOf(tasks, uid) ==> (id in ids <==> tasks[id].done)
  {
    set id | id in tasks && tasks[id].userId == uid && tasks[id].done
  }

  /** A user never has more completed tasks than tasks. */
  lemma CompletedAtMostTotal(tasks: TaskTable, uid: UserId)
    ensures |CompletedOf(tasks, uid)| <= |TasksOf(tasks, uid)|
  {
    var done, all := CompletedOf(tasks, uid), TasksOf(tasks, uid);
    assert all == done + (all - done);
  }

  /**
   * `Task.query.filter_by(user_id=uid).delete()`: exactly the tasks of `uid`
   * go, the rest stay as they were, so afterwards `uid` owns nothing and every
   * other user still owns the same tasks.
   */
  function RemoveTasksOf(tasks: TaskTable, uid: UserId): (r: TaskTable)
    ensures r.Keys == tasks.Keys - TasksOf(tasks, uid)
    ensures forall id :: id in r ==> r[id] == tasks[id]
    ensures TasksOf(r, uid) == {}
    ensures forall other :: other != uid ==> TasksOf(r, other) == TasksOf(tasks, other)
  {
    map id | id in tasks && tasks[id].userId != uid :: tasks[id]
  }

  /** Deleting a user together with their tasks leaves every remaining task with an existing owner. */
  lemma DeleteUserKeepsOwners(users: UserTable, tasks: TaskTable, uid: UserId)
    requires OwnersExist(users, tasks)
    ensures OwnersExist(users - {uid}, RemoveTasksOf(tasks, uid))
  {
  }

  /** Deleting the user alone, without their tasks, would leave their tasks orphaned. */
  lemma DeleteUserAloneOrphans(users: UserTable, tasks: TaskTable, uid: UserId, id: TaskId)
    requires id in tasks && tasks[id].userId == uid
    ensures !OwnersExist(users - {uid}, tasks)
  {
  }

  /** A new task whose owner is a user keeps every task owned by a user. */
  lemma InsertTaskKeepsOwners(users: UserTable, tasks: TaskTable, id: TaskId, t: Task)
    requires OwnersExist(users, tasks)
    requires t.userId in users
    ensures OwnersExist(users, tasks[id := t])
  {
  }

  /** A new task whose owner is not a user (a deleted user's id) breaks that. */
  lemma InsertTaskForMissingOwner(users: UserTable, tasks: TaskTable, id: TaskId, t: Task)
    requires t.userId !in users
    ensures !OwnersExist(users, tasks[id := t])
  {
    assert id in tasks[id := t];
  }

  /** The `created_at` column of a table, read from each row by `at`. */
  function Stamps<R>(rows: map<nat, R>, at: R -> int): (stamps: map<nat, int>)
    ensures stamps.Keys == rows.Keys
    ensures forall id :: id in rows ==> stamps[id] == at(rows[id])
  {
    map id | id in rows :: at(rows[id])
  }

  /** `n` is one of `ids` and no id in `ids` has a later timestamp. */
  ghost predicate IsNewest(stamps: map<nat, int>, ids: set<nat>, n: nat)
    requires ids <= stamps.Keys
  {
    n in ids && forall id :: id in ids ==> stamps[id] <= stamps[n]
  }

  /** Every non-empty set of timestamped ids has a newest one. */
  lemma {:induction false} NewestExists(stamps: map<nat, int>, ids: set<nat>)
    requires ids != {} && ids <= stamps.Keys
    ensures exists n :: IsNewest(stamps, ids, n)
    decreases ids
  {
    var x :| x in ids;
    if ids != {x} {
      NewestExists(stamps, ids - {x});
      var y :| IsNewest(stamps, ids - {x}, y);
      if stamps[x] < stamps[y] {
        assert IsNewest(stamps, ids, y);
      } else {
        assert IsNewest(stamps, ids, x);
      }
    } else {
      assert IsNewest(stamps, ids, x);
    }
  }

  /**
   * `.order_by(created_at.desc()).all()`: the ids, each once, newest first.
   * Rows with equal timestamps come in an unspecified order.
   */
  ghost function NewestFirst(stamps: map<nat, int>, ids: set<nat>): (r: seq<nat>)
    requires ids <= stamps.Keys
    ensures |r| == |ids|
    ensures forall id :: id in r <==> id in ids
    ensures forall i, j :: 0 <= i < j < |r| ==> r[i] != r[j]
    ensures forall i, j :: 0 <= i < j < |r| ==> stamps[r[i]] >= stamps[r[j]]
    decreases ids
  {
    if ids == {} then []
    else
      NewestExists(stamps, ids);
      var newest :| IsNewest(stamps, ids, newest);
      [newest] + NewestFirst(stamps, ids - {newest})
  }
}
