/**
 * `ToDoApp`: the database connection with its `users`, `todo` and
 * `login_history` tables, and the operations the pages call on it. Every
 * method that writes commits before it returns, so each one is a single
 * step on the three tables; `update_task_status` commits twice.
 */
module App {
  import opened Wrappers
  import opened Text
  import opened Dates
  import opened Forms
  import opened Tables

  /** A row of `login_history(username, login_time)`. */
  datatype LoginEvent = LoginEvent(username: string, loginTime: string)

  class ToDoApp {
    var users: seq<User>
    var todo: Table
    var loginHistory: seq<LoginEvent>
    /** The rowid the next inserted task receives. */
    var nextRowid: int

    ghost predicate Valid()
      reads this
    {
      nextRowid >= 1 && forall id :: id in todo ==> 1 <= id < nextRowid
    }

    /** `__init__` and `create_tables` on a new database file. */
    constructor ()
      ensures Valid()
      ensures users == [] && todo == map[] && loginHistory == []
    {
      users, todo, loginHistory, nextRowid := [], map[], [], 1;
    }

    // -------------------------------------------------------------------------
    // Users and logins
    // -------------------------------------------------------------------------

    /** `add_user`: appends the row, with no check that the username is new. */
    method AddUser(username: string, password: string, email: string, pushoverKey: string)
      requires Valid()
      modifies this
      ensures Valid()
      ensures users == old(users) + [User(username, password, email, pushoverKey)]
      ensures todo == old(todo) && loginHistory == old(loginHistory) && nextRowid == old(nextRowid)
    {
      users := users + [User(username, password, email, pushoverKey)];
    }

    /** `login_user`: all rows with this username and password. */
    method LoginUser(username: string, password: string) returns (matches: seq<User>)
      ensures matches == CredentialMatches(users, username, password)
      ensures forall x :: x in matches <==> x in users && x.username == username && x.password == password
    {
      matches := [];
      var i := 0;
      while i < |users|
        invariant 0 <= i <= |users|
        invariant matches == CredentialMatches(users[..i], username, password)
      {
        if users[i].username == username && users[i].password == password {
          matches := matches + [users[i]];
        }
        i := i + 1;
        assert users[..i][..i - 1] == users[..i - 1];
      }
      assert users[..i] == users;
      CredentialMatchesSpec(users, username, password);
    }

    /** `log_login`, with the clock reading passed in. */
    method LogLogin(username: string, loginTime: string)
      requires Valid()
      modifies this
      ensures Valid()
      ensures loginHistory == old(loginHistory) + [LoginEvent(username, loginTime)]
      ensures users == old(users) && todo == old(todo) && nextRowid == old(nextRowid)
    {
      loginHistory := loginHistory + [LoginEvent(username, loginTime)];
    }

    /** The login button: a login is recorded exactly when some row has these credentials. */
    method Login(username: string, password: string, loginTime: string) returns (ok: bool)
      requires Valid()
      modifies this
      ensures Valid()
      ensures ok <==> exists x :: x in old(users) && x.username == username && x.password == password
      ensures loginHistory == old(loginHistory) + (if ok then [LoginEvent(username, loginTime)] else [])
      ensures users == old(users) && todo == old(todo) && nextRowid == old(nextRowid)
    {
      var matches := LoginUser(username, password);
      ok := matches != [];
      if ok {
        assert matches[0] in matches;
        LogLogin(username, loginTime);
      }
    }

    /** `get_user_email_key`: email and push key of the first row for this username. */
    method GetUserEmailKey(username: string) returns (contact: Option<Contact>)
      ensures contact == ContactOf(users, username)
      ensures contact.None? <==> forall i :: 0 <= i < |users| ==> users[i].username != username
    {
      var i := 0;
      while i < |users| && users[i].username != username
        invariant 0 <= i <= |users|
        invariant ContactOf(users[i..], username) == ContactOf(users, username)
      {
        assert users[i..][1..] == users[i + 1..];
        i := i + 1;
      }
      if i < |users| {
        contact := Some(Contact(users[i].email, users[i].pushoverKey));
      } else {
        contact := None;
      }
      ContactOfSpec(users, username);
    }

    /** The sign-up button: the account is added only when the email passes the pattern. */
    method SignUp(username: string, password: string, email: string, pushoverKey: string) returns (ok: bool)
      requires Valid()
      modifies this
      ensures Valid()
      ensures ok <==> PatternMatches(email)
      ensures users == old(users) + (if ok then [User(username, password, email, pushoverKey)] else [])
      ensures todo == old(todo) && loginHistory == old(loginHistory) && nextRowid == old(nextRowid)
    {
      EmailLooksValidIff(email);
      ok := EmailLooksValid(email);
      if ok {
        AddUser(username, password, email, pushoverKey);
      }
    }

    // -------------------------------------------------------------------------
    // Tasks
    // -------------------------------------------------------------------------

    /** `add_task`: inserts the row under a fresh rowid, which it returns. */
    method AddTask(username: string, task: string, status: string, date: string,
                   favorite: int, category: string, priority: string, recurring: string)
      returns (id: int)
      requires Valid()
      modifies this
      ensures Valid()
      ensures id !in old(todo) && id == old(nextRowid)
      ensures todo == old(todo)[id := Row(username, task, status, date, favorite, category, priority, recurring)]
      ensures users == old(users) && loginHistory == old(loginHistory)
    {
      id := nextRowid;
      todo := todo[id := Row(username, task, status, date, favorite, category, priority, recurring)];
      nextRowid := nextRowid + 1;
    }

    /**
     * The add-task button: a blank title adds nothing; otherwise the task is
     * stored with the picked date formatted as "%Y-%m-%d" and the favourite
     * flag as 0 or 1.
     */
    method SubmitTask(username: string, task: string, status: string, due: Date,
                      favorite: bool, category: string, priority: string, recurring: string)
      returns (added: Option<int>)
      requires Valid() && ValidDate(due)
      modifies this
      ensures Valid()
      ensures added.None? <==> forall k :: 0 <= k < |task| ==> IsSpace(task[k])
      ensures added.None? ==> todo == old(todo)
      ensures added.Some? ==>
        && added.value !in old(todo)
        && todo == old(todo)[added.value := Row(username, task, status, FormatDate(due),
                                                if favorite then 1 else 0, category, priority, recurring)]
      ensures users == old(users) && loginHistory == old(loginHistory)
    {
      HasTitleIff(task);
      if !HasTitle(task) {
        return None;
      }
      var id := AddTask(username, task, status, FormatDate(due), if favorite then 1 else 0, category, priority, recurring);
      return Some(id);
    }

    /**
     * The table scan behind every SELECT of the core: the rows satisfying
     * the WHERE clause, paired with their rowids, in rowid order.
     */
    method Scan(q: Query) returns (rows: seq<(int, Row)>)
      requires Valid()
      ensures rows == Select(todo, q, nextRowid)
      ensures forall id, row :: (id, row) in rows <==> id in todo && todo[id] == row && Matches(q, row)
      ensures IncreasingIds(rows)
    {
      rows := [];
      var id := 1;
      while id < nextRowid
        invariant 1 <= id <= nextRowid
        invariant rows == Select(todo, q, id)
      {
        if id in todo && Matches(q, todo[id]) {
          rows := rows + [(id, todo[id])];
        }
        id := id + 1;
      }
      SelectSpec(todo, q, nextRowid);
    }

    /** `get_tasks`: the user's own tasks. */
    method GetTasks(username: string) returns (rows: seq<(int, Row)>)
      requires Valid()
      ensures rows == Select(todo, OwnedBy(username), nextRowid)
      ensures forall id, row :: (id, row) in rows <==> id in todo && todo[id] == row && row.username == username
    {
      rows := Scan(OwnedBy(username));
    }

    /** `search_tasks`: the user's tasks whose title, date or status is LIKE '%query%'. */
    method SearchTasks(username: string, query: string) returns (rows: seq<(int, Row)>)
      requires Valid()
      ensures rows == Select(todo, Search(username, query), nextRowid)
      ensures forall id, row :: (id, row) in rows <==>
        && id in todo && todo[id] == row && row.username == username
        && (Like(row.task, "%" + query + "%") || Like(row.date, "%" + query + "%") || Like(row.status, "%" + query + "%"))
    {
      rows := Scan(Search(username, query));
    }

    /** `get_due_tasks`, with today's date passed in: every user's tasks dated `today`. */
    method GetDueTasks(today: string) returns (rows: seq<(int, Row)>)
      requires Valid()
      ensures rows == Select(todo, DueOn(today), nextRowid)
      ensures forall id, row :: (id, row) in rows <==> id in todo && todo[id] == row && row.date == today
    {
      rows := Scan(DueOn(today));
    }

    /** `update_task`: rewrites every column but the owner; a missing rowid changes nothing. */
    method UpdateTask(taskId: int, task: string, status: string, date: string,
                      favorite: int, category: string, priority: string, recurring: string)
      requires Valid()
      modifies this
      ensures Valid()
      ensures todo == if taskId in old(todo)
        then old(todo)[taskId := Row(old(todo)[taskId].username, task, status, date, favorite, category, priority, recurring)]
        else old(todo)
      ensures users == old(users) && loginHistory == old(loginHistory) && nextRowid == old(nextRowid)
    {
      if taskId in todo {
        todo := todo[taskId := Row(todo[taskId].username, task, status, date, favorite, category, priority, recurring)];
      }
    }

    /** `delete_task`: removes that rowid and no other. */
    method DeleteTask(taskId: int)
      requires Valid()
      modifies this
      ensures Valid()
      ensures todo == old(todo) - {taskId}
      ensures users == old(users) && loginHistory == old(loginHistory) && nextRowid == old(nextRowid)
    {
      todo := todo - {taskId};
    }

    /**
     * `update_task_status`: write the status and commit; then, for a status
     * that reads "done", re-read the row and, when it recurs, write the next
     * date with status "ToDo". A failure after the first write leaves it in
     * place.
     */
    method UpdateTaskStatus(taskId: int, newStatus: string) returns (outcome: Outcome<UpdateError>)
      requires Valid()
      modifies this
      ensures Valid()
      ensures (todo, outcome) == StatusUpdate(old(todo), taskId, newStatus)
      ensures users == old(users) && loginHistory == old(loginHistory) && nextRowid == old(nextRowid)
    {
      if taskId in todo {
        todo := todo[taskId := todo[taskId].(status := newStatus)];
      }
      if newStatus != [] && Lower(newStatus) == "done" {
        if taskId !in todo {
          return Fail(NoSuchRow);
        }
        var rec, currentDate := todo[taskId].recurring, todo[taskId].date;
        if rec != [] && rec != "None" {
          var next := ComputeNextDate(rec, currentDate);
          if next.Err? {
            return Fail(DateFailure(next.error));
          }
          todo := todo[taskId := todo[taskId].(date := next.value, status := "ToDo")];
        }
      }
      return Pass;
    }
  }
}
