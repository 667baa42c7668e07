/**
 * Worked examples: two call sequences on a new `ToDoApp`, verified from the
 * methods' contracts alone, and two status updates on concrete recurring tasks.
 */
module Scenarios {
  import opened Wrappers
  import opened Dates
  import DateExamples
  import opened Tables
  import opened App

  /**
   * Bob adds "Pay rent", due 2025-03-01 and recurring "Monthly", and marks it
   * "Done": it comes back as "ToDo", due 30 days later on 2025-03-31.
   */
  method PayRentScenario() returns (row: Row, outcome: Outcome<UpdateError>)
    ensures outcome == Pass
    ensures row == Row("bob", "Pay rent", "ToDo", "2025-03-31", 0, "Home", "High", "Monthly")
  {
    var app := new ToDoApp();
    app.AddUser("bob", "secret", "bob@example.com", "");
    var id := app.AddTask("bob", "Pay rent", "ToDo", "2025-03-01", 0, "Home", "High", "Monthly");
    ghost var before := app.todo;
    DateExamples.MonthlyIsThirtyDays();
    DoneSpellings();
    RolloverAfterDone(before, id, "Done", "Monthly", "2025-03-01", "2025-03-31");
    outcome := app.UpdateTaskStatus(id, "Done");
    row := app.todo[id];
  }

  /**
   * Signing up twice with the same name keeps both accounts, and logging in
   * finds both rows.
   */
  method DuplicateSignupScenario() returns (ok1: bool, ok2: bool, matches: seq<User>)
    ensures ok1 && ok2
    ensures matches == [User("alice", "pw", "alice@example.com", ""), User("alice", "pw", "alice@example.com", "")]
  {
    var app := new ToDoApp();
    Forms.PatternMatchesExample();
    ok1 := app.SignUp("alice", "pw", "alice@example.com", "");
    ok2 := app.SignUp("alice", "pw", "alice@example.com", "");
    var x := User("alice", "pw", "alice@example.com", "");
    DuplicateSignup([], x);
    assert app.users == [] + [x, x];
    matches := app.LoginUser("alice", "pw");
  }

  /** A "Daily" task due 2024-12-31 marked "Done" is due again, as "ToDo", on 2025-01-01. */
  lemma DailyRollover(t: Table, id: int)
    requires id in t && t[id].recurring == "Daily" && t[id].date == "2024-12-31"
    ensures StatusUpdate(t, id, "Done") == (t[id := t[id].(status := "ToDo", date := "2025-01-01")], Pass)
  {
    DateExamples.DailyRollsOverYear();
    DoneSpellings();
    RolloverAfterDone(t, id, "Done", "Daily", "2024-12-31", "2025-01-01");
  }

  /** "Pay rent", due 2025-03-01 and "Monthly", is due again on 2025-03-31 after it is done. */
  lemma MonthlyRollover(t: Table, id: int)
    requires id in t && t[id].recurring == "Monthly" && t[id].date == "2025-03-01"
    ensures StatusUpdate(t, id, "done") == (t[id := t[id].(status := "ToDo", date := "2025-03-31")], Pass)
  {
    DateExamples.MonthlyIsThirtyDays();
    DoneSpellings();
    RolloverAfterDone(t, id, "done", "Monthly", "2025-03-01", "2025-03-31");
  }
}
