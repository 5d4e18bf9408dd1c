# Task manager: a Dafny model of its request handlers

This project models the task-manager web application of the Flask lectures
(`Flask/10Lectue/flask_task_app/app.py`). It has two tables and a session.
The `users` table holds username, email, password hash, role ('user' or
'admin') and creation time. The `tasks` table holds title, description, done
flag, owning user and creation time. A client's session is empty or holds
`user_id`, `username` and `role`. Each route is a guarded transition over
that state.

- `text.dfy` (module `Text`): Python's `str.strip()` and `str.lower()`, which
  the handlers apply to form input.
- `passwords.dfy` (module `Passwords`): Werkzeug's `generate_password_hash`
  and `check_password_hash`. The key-derivation function and the random salt
  are parameters, so nothing depends on the hashing algorithm.
- `database.dfy` (module `Database`): the rows, the tables as maps from id to
  row, and the queries the handlers run. It also holds the two table
  invariants. `UniqueAccounts` says no two users share a username or an
  email. `OwnersExist` says every task's owner is a user.
- `app.dfy` (module `TaskManager`): the handlers. `TaskApp` is the database
  object. Every route that writes rows is a method of it whose postcondition
  gives the whole new state, the response and the invariants it keeps.
  Read-only routes are functions. `Session` is the client's session object.
  Each handler receives it, because every client brings its own. Only
  `login` and `logout` change it. A reply is a `Response`: a redirect, a
  rendered page with the data its template receives, 403 (`abort(403)`) or
  404 (`get_or_404`).

The `login_required` and `admin_required` decorators are the first branch
of every protected handler's contract. Without `user_id` in the session
(for admin routes, also without role 'admin') the reply is a redirect to
the login page and nothing changes.

Two behaviours of the code as written are proved and kept in the model:

- `init_db` looks only at the username. If a user not named `admin` already
  holds `admin@example.com`, seeding gives two users the same email
  (`SeedAdminCanDuplicateEmail`). Whether the schema's constraints would
  refuse that commit depends on `models.py`, which is not part of this model.
- `login_required` checks only that the session holds a `user_id`. Suppose
  an admin deletes a user who is still logged in on another client. That
  client's next `add_task` stores a task whose owner no longer exists
  (`DeletedUserStillAddsTask`). So "every task has an owner" holds right
  after `admin_delete_user`, and every other handler keeps it. `add_task`
  keeps it only when the session's user still exists.

## Model

| member | source | states |
|---|---|---|
| Text.Strip | Flask/10Lectue/flask_task_app/app.py:56-57 | `strip()` leaves no white space at either end, and leaves nothing exactly when the input is all white space |
| Text.StripKeepsMiddle | Flask/10Lectue/flask_task_app/app.py:56 | `strip()` removes only white space, from the two ends: its result is the piece of the input between a white-space prefix and a white-space suffix |
| Text.StripIdempotent | Flask/10Lectue/flask_task_app/app.py:90 | stripping the already stripped username again (as `login` does with what `register` stored) changes nothing |
| Text.Lower | Flask/10Lectue/flask_task_app/app.py:57 | restricted to ASCII, `lower()` keeps the length and maps each character in place by `LowerChar` |
| Text.LowerChar | Flask/10Lectue/flask_task_app/app.py:57 | no letter A-Z is left in the result, and only the letters A-Z change, each into a letter a-z |
| Text.LowerIdempotent | Flask/10Lectue/flask_task_app/app.py:57 | lower-casing a stored email again changes nothing |
| Text.LowerEmpty | Flask/10Lectue/flask_task_app/app.py:57-61 | lower-casing keeps an email empty or non-empty, so the emptiness test after `lower()` is the test on the stripped input |
| Passwords.GeneratePasswordHash | Flask/10Lectue/flask_task_app/app.py:74 | a freshly generated hash passes the check for the password it was made from |
| Passwords.CheckAcceptsOnlyOriginal | Flask/10Lectue/flask_task_app/app.py:94 | when different passwords never give the same digest under one salt, the check accepts a generated hash for exactly the password it was made from |
| Database.InsertUserKeepsUnique | Flask/10Lectue/flask_task_app/app.py:69-77 | adding a user whose username and email nobody has keeps usernames and emails unique |
| Database.FindUsername | Flask/10Lectue/flask_task_app/app.py:93 | the lookup returns a user with that username and no lower id has it; no result means no user in range has it |
| Database.FindUsernameExact | Flask/10Lectue/flask_task_app/app.py:93 | with unique usernames, the lookup returns an id exactly when that user has the username |
| Database.CompletedOf | Flask/10Lectue/flask_task_app/app.py:120 | the completed ids are among the user's task ids, and a task of the user's is counted exactly when it is done |
| Database.CompletedAtMostTotal | Flask/10Lectue/flask_task_app/app.py:119-121 | a user never has more completed tasks than tasks |
| Database.RemoveTasksOf | Flask/10Lectue/flask_task_app/app.py:204 | only the deleted user's tasks go and the others stay unchanged; afterwards the user owns no task and every other user owns the same tasks as before |
| Database.DeleteUserKeepsOwners | Flask/10Lectue/flask_task_app/app.py:204-206 | deleting a user together with their tasks keeps every remaining task's owner in the table |
| Database.DeleteUserAloneOrphans | Flask/10Lectue/flask_task_app/app.py:204-205 | deleting the user without their tasks would leave a task without an owner |
| Database.InsertTaskKeepsOwners | Flask/10Lectue/flask_task_app/app.py:140-142 | a new task whose owner is a user keeps every task's owner in the table |
| Database.InsertTaskForMissingOwner | Flask/10Lectue/flask_task_app/app.py:140-142 | a new task whose owner is not a user leaves a task without an owner |
| Database.NewestExists | Flask/10Lectue/flask_task_app/app.py:128 | every non-empty set of rows has a newest row |
| Database.NewestFirst | Flask/10Lectue/flask_task_app/app.py:128 | `order_by(created_at.desc()).all()` lists every selected id once, nothing else, by creation time from newest to oldest |
| TaskManager.CheckRegistration | Flask/10Lectue/flask_task_app/app.py:61-72 | a registration passes only with username, email and password present, matching confirmation, and username and email free |
| TaskManager.RegistrationRejected | Flask/10Lectue/flask_task_app/app.py:55-72 | a submission is turned away exactly when username or email is blank, the password is empty, the confirmation differs, or the cleaned username or email is taken |
| TaskManager.NewUser | Flask/10Lectue/flask_task_app/app.py:74-75 | the new row carries the cleaned username and email and a hash that the typed password passes |
| TaskManager.RegisteredUserCanLogIn | Flask/10Lectue/flask_task_app/app.py:74-100 | after a successful registration, logging in with the same username and password finds exactly the new user and the password check passes |
| TaskManager.LoginAcceptsOnlyRegistered | Flask/10Lectue/flask_task_app/app.py:56-100 | when different passwords never give the same digest, logging in as a newly registered user finds that user and passes the hash check exactly when the username matches the registered one after stripping and the password is the registered one |
| TaskManager.DefaultAdmin | Flask/10Lectue/flask_task_app/app.py:231-232 | the seeded account is `admin` / `admin@example.com` with role admin and a hash that `admin123` passes |
| TaskManager.SeedAdmin | Flask/10Lectue/flask_task_app/app.py:229-234 | afterwards a user is named `admin`; the table is unchanged if one already was, and otherwise gains exactly the new admin |
| TaskManager.SeedAdminIdempotent | Flask/10Lectue/flask_task_app/app.py:230 | seeding a second time, with any id, salt or time, changes nothing |
| TaskManager.SeedAdminKeepsUnique | Flask/10Lectue/flask_task_app/app.py:230-233 | seeding keeps accounts unique when no user already holds the admin email |
| TaskManager.SeedAdminCanDuplicateEmail | Flask/10Lectue/flask_task_app/app.py:230-233 | seeding can give two users the same email, because only the username is checked |
| TaskManager.TaskApp.Index | Flask/10Lectue/flask_task_app/app.py:43-47 | a logged-in client is redirected to the dashboard; anyone else sees the public page |
| TaskManager.TaskApp.Register | Flask/10Lectue/flask_task_app/app.py:50-81 | a logged-in client is redirected; a GET or a rejected submission adds nobody; otherwise exactly one user is added under a fresh id, holding the hash of the password; the session is untouched; unique accounts stay unique |
| TaskManager.TaskApp.Login | Flask/10Lectue/flask_task_app/app.py:84-104 | the session changes only for a client not logged in that submits the username of an existing user and a password passing that user's hash check; it then holds that user's id, username and role |
| TaskManager.TaskApp.Logout | Flask/10Lectue/flask_task_app/app.py:107-111 | the session is empty afterwards, whatever it held |
| TaskManager.TaskApp.Dashboard | Flask/10Lectue/flask_task_app/app.py:114-121 | needs a login; 404 when the session's user is gone; otherwise shows the number of tasks the user owns and the number of those that are done, which never exceeds it |
| TaskManager.TaskApp.ListTasks | Flask/10Lectue/flask_task_app/app.py:124-129 | needs a login; lists each of the session user's tasks once, nothing else, newest first |
| TaskManager.TaskApp.AddTask | Flask/10Lectue/flask_task_app/app.py:131-145 | needs a login; with a non-blank title exactly one task is added, owned by the session's user; otherwise nothing changes; no other task is touched |
| TaskManager.TaskApp.EditTask | Flask/10Lectue/flask_task_app/app.py:147-168 | needs a login; 404 for a missing task; 403 unless owner or admin; a non-blank title replaces title, description and done of that task only; owners never change |
| TaskManager.TaskApp.DeleteTask | Flask/10Lectue/flask_task_app/app.py:170-181 | needs a login; 404 for a missing task; 403 unless owner or admin; otherwise exactly that task is removed |
| TaskManager.TaskApp.AdminDashboard | Flask/10Lectue/flask_task_app/app.py:184-189 | admin only; shows the number of users and of tasks |
| TaskManager.TaskApp.AdminUsers | Flask/10Lectue/flask_task_app/app.py:191-195 | admin only; lists every user once, newest first |
| TaskManager.TaskApp.AdminDeleteUser | Flask/10Lectue/flask_task_app/app.py:197-208 | admin only; 404 for a missing user; an admin's own account is never deleted; otherwise the user and every task they own go, and no remaining task points at them |
| TaskManager.TaskApp.AdminTasks | Flask/10Lectue/flask_task_app/app.py:210-214 | admin only; lists every task once, newest first |
| TaskManager.TaskApp.AdminUserTasks | Flask/10Lectue/flask_task_app/app.py:216-221 | admin only; 404 for a missing user; otherwise lists each of that user's tasks once, nothing else, newest first |
| TaskManager.TaskApp.InitDb | Flask/10Lectue/flask_task_app/app.py:226-237 | adds the admin account only when no user is named `admin`, after which one is, so a second run changes nothing; tasks are never touched |
| TaskManager.DeletedUserStillAddsTask | Flask/10Lectue/flask_task_app/app.py:131-142 | once an admin has deleted a user who is logged in elsewhere, that client's `add_task` leaves a task without an owner |

## Left out

- Templates, flash messages, `url_for` and `redirect` are not modelled. A reply names the page or redirect target and the data passed to the template.
- Werkzeug's hashing algorithm and the `method$salt$digest` string format are not modelled. The key-derivation function and the salt are parameters.
- Text.Lower: maps only the ASCII letters A-Z. Python's `lower()` also lower-cases every other cased Unicode character ('É' becomes 'é'), and a few characters change the length ('İ' becomes two characters), so the model's length and position guarantees hold only for ASCII input.
- Ids come from per-table counters and are never reused. SQLite without AUTOINCREMENT may hand out the highest deleted id again, which would let a stale session match a newer user.
- Database.FindUsername: `.first()` without an ORDER BY leaves the row to the database. The model takes the lowest id. `FindUsernameExact` shows the choice does not matter while usernames are unique.
- The column definitions in `models.py` are not part of this model: unique constraints, foreign keys and the defaults of `role`, `done` and `created_at`. The role and done defaults are constructor parameters of `TaskApp`. Creation times are parameters of the inserting handlers. A commit that the schema would refuse is modelled as succeeding.
- Rows with equal `created_at` are listed in an unspecified order, so the listing handlers are ghost functions and are not executable.
- Session keys other than `user_id`, `username` and `role` are not modelled, nor is cookie signing. That includes the flash storage.
- Requests with other HTTP methods are not modelled, because Flask answers them with 405 before a handler runs. `delete_task` and `admin_delete_user` accept only POST, so they take no method argument.
- `db.create_all()`, the messages `init_db` prints, the command-line entry point and `app.run` (lines 226-249) are process I/O.
- Requests are modelled one at a time, each handler running to completion before the next starts. `app.run` serves requests on threads, and `register` checks for a taken name (line 69) in a separate statement from its insert (lines 76-77), so two concurrent registrations of one name could both pass the check. `UniqueAccounts` is proved only under the one-at-a-time assumption; a unique constraint in `models.py`, if any, is not part of this model.
- Not modelled: the Django views and URL configuration, and the other Flask lectures. They only render templates or check that fields are present, and their form validation is done by WTForms.
