/**
 * The "Send Reminders" sweep: every task dated today, across all users, gets
 * an email to its owner's address and, when the owner gave a Pushover key, a
 * push message. Sending is outside the model: each attempt is recorded as a
 * notice, and since both senders swallow their own exceptions a failed send
 * never stops the sweep.
 */
module Reminders {
  import opened Wrappers
  import opened Tables
  import opened App

  /** One attempted delivery: an SMTP message or a Pushover POST. */
  datatype Notice =
    | Email(sender: string, recipient: string, subject: string, body: string)
    | Push(token: string, userKey: string, message: string)

  const Sender := "your_email@example.com"
  const Subject := "To-Do Task Reminder"
  const PushToken := "your_pushover_app_token"

  /** `send_email_reminder(to_email, task)`. */
  function EmailReminder(toEmail: string, task: string): (n: Notice)
    ensures n.Email? && n.recipient == toEmail && n.subject == Subject
  {
    Email(Sender, toEmail, Subject, "Reminder: You have a task due today: " + task)
  }

  /** `send_push_notification(message, user_key)`: nothing at all for an empty key. */
  function PushNotification(message: string, userKey: string): (ns: seq<Notice>)
    ensures ns == [] <==> userKey == []
  {
    if userKey == [] then [] else [Push(PushToken, userKey, message)]
  }

  /** The body of the sweep loop for one due row. */
  function RemindersFor(row: Row, users: seq<User>): seq<Notice>
  {
    match ContactOf(users, row.username)
    case None => []
    case Some(c) =>
      [EmailReminder(c.email, row.task)]
      + PushNotification(row.username + ", Reminder: " + row.task + " is due today!", c.pushoverKey)
  }

  /** The notices of the whole sweep over `due`, in order. */
  function Reminders(due: seq<(int, Row)>, users: seq<User>): seq<Notice>
  {
    if due == [] then []
    else Reminders(due[..|due| - 1], users) + RemindersFor(due[|due| - 1].1, users)
  }

  /** The reminder sweep, with today's date passed in. */
  method SendReminders(app: ToDoApp, today: string) returns (sent: seq<Notice>)
    requires app.Valid()
    ensures sent == Reminders(Select(app.todo, DueOn(today), app.nextRowid), app.users)
  {
    var dueTasks := app.GetDueTasks(today);
    sent := [];
    var i := 0;
    while i < |dueTasks|
      invariant 0 <= i <= |dueTasks|
      invariant sent == Reminders(dueTasks[..i], app.users)
    {
      var (_, t) := dueTasks[i];
      var user, task := t.username, t.task;
      var emailKey := app.GetUserEmailKey(user);
      if emailKey.Some? {
        var Contact(email, key) := emailKey.value;
        sent := sent + [EmailReminder(email, task)];
        sent := sent + PushNotification(user + ", Reminder: " + task + " is due today!", key);
      }
      assert dueTasks[..i + 1][..i] == dueTasks[..i];
      i := i + 1;
    }
    assert dueTasks[..i] == dueTasks;
  }

  // ---------------------------------------------------------------------------
  // What a sweep sends
  // ---------------------------------------------------------------------------

  function EmailCount(ns: seq<Notice>): nat
  {
    if ns == [] then 0 else EmailCount(ns[..|ns| - 1]) + (if ns[|ns| - 1].Email? then 1 else 0)
  }

  function PushCount(ns: seq<Notice>): nat
  {
    if ns == [] then 0 else PushCount(ns[..|ns| - 1]) + (if ns[|ns| - 1].Push? then 1 else 0)
  }

  /** Due rows whose owner has a user row. */
  function ContactedCount(due: seq<(int, Row)>, users: seq<User>): nat
  {
    if due == [] then 0
    else ContactedCount(due[..|due| - 1], users) + (if ContactOf(users, due[|due| - 1].1.username).Some? then 1 else 0)
  }

  /** Due rows whose owner's first user row has a non-empty push key. */
  function PushableCount(due: seq<(int, Row)>, users: seq<User>): nat
  {
    if due == [] then 0
    else
      var c := ContactOf(users, due[|due| - 1].1.username);
      PushableCount(due[..|due| - 1], users) + (if c.Some? && c.value.pushoverKey != [] then 1 else 0)
  }

  lemma {:induction false} CountsAppend(a: seq<Notice>, b: seq<Notice>)
    ensures EmailCount(a + b) == EmailCount(a) + EmailCount(b)
    ensures PushCount(a + b) == PushCount(a) + PushCount(b)
    decreases |b|
  {
    if b != [] {
      var b' := b[..|b| - 1];
      assert (a + b)[..|a + b| - 1] == a + b';
      assert (a + b)[|a + b| - 1] == b[|b| - 1];
      CountsAppend(a, b');
    } else {
      assert a + b == a;
    }
  }

  /**
   * A sweep makes one email attempt per due task whose owner has a user row,
   * and one push attempt per due task whose owner gave a push key.
   */
  lemma {:induction false} ReminderCounts(due: seq<(int, Row)>, users: seq<User>)
    ensures EmailCount(Reminders(due, users)) == ContactedCount(due, users)
    ensures PushCount(Reminders(due, users)) == PushableCount(due, users)
  {
    if due != [] {
      var rest := due[..|due| - 1];
      ReminderCounts(rest, users);
      var row := due[|due| - 1].1;
      CountsAppend(Reminders(rest, users), RemindersFor(row, users));
      match ContactOf(users, row.username)
      case None =>
      case Some(c) =>
        var e := [EmailReminder(c.email, row.task)];
        var p := PushNotification(row.username + ", Reminder: " + row.task + " is due today!", c.pushoverKey);
        CountsAppend(e, p);
        assert EmailCount(e) == 1 && PushCount(e) == 0 by {
          assert e[..0] == [];
        }
        if p != [] {
          assert p[..0] == [];
        }
    }
  }

  /**
   * Every due task whose owner has a user row gets an email with its title,
   * and a push exactly when the owner's key is not empty.
   */
  lemma {:induction false} EveryDueTaskReminded(due: seq<(int, Row)>, users: seq<User>, i: int)
    requires 0 <= i < |due|
    requires ContactOf(users, due[i].1.username).Some?
    ensures var c := ContactOf(users, due[i].1.username).value;
      var row := due[i].1;
      EmailReminder(c.email, row.task) in Reminders(due, users)
      && (c.pushoverKey != [] ==>
            Push(PushToken, c.pushoverKey, row.username + ", Reminder: " + row.task + " is due today!") in Reminders(due, users))
  {
    if i < |due| - 1 {
      EveryDueTaskReminded(due[..|due| - 1], users, i);
    }
  }

  /** Every notice of a sweep belongs to one of the due tasks. */
  lemma {:induction false} RemindersTraceBack(due: seq<(int, Row)>, users: seq<User>, n: Notice)
    requires n in Reminders(due, users)
    ensures exists i :: 0 <= i < |due| && n in RemindersFor(due[i].1, users)
  {
    var rest := due[..|due| - 1];
    if n in Reminders(rest, users) {
      RemindersTraceBack(rest, users, n);
      var i :| 0 <= i < |rest| && n in RemindersFor(rest[i].1, users);
      assert rest[i] == due[i];
    } else {
      assert n in RemindersFor(due[|due| - 1].1, users);
    }
  }

  /**
   * The sweep reaches tasks of every user, not only the logged-in one: a
   * task of any owner dated today, whose owner has an account, is reminded.
   */
  lemma SweepCoversAllUsers(t: Table, bound: int, users: seq<User>, id: int, today: string)
    requires id in t && 1 <= id < bound && t[id].date == today
    requires ContactOf(users, t[id].username).Some?
    ensures EmailReminder(ContactOf(users, t[id].username).value.email, t[id].task)
            in Reminders(Select(t, DueOn(today), bound), users)
  {
    var due := Select(t, DueOn(today), bound);
    SelectSpec(t, DueOn(today), bound);
    assert (id, t[id]) in due;
    var i :| 0 <= i < |due| && due[i] == (id, t[id]);
    EveryDueTaskReminded(due, users, i);
  }
}
