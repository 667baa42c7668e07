/**
 * The `users` and `todo` tables as values, the queries run against them, and
 * the specification of `update_task_status`.
 */
module Tables {
  import opened Wrappers
  import opened Text
  import opened Dates

  /** A row of `users(username, password, email, pushover_key)`. */
  datatype User = User(username: string, password: string, email: string, pushoverKey: string)

  /** A row of `todo(username, task, status, date, favorite, category, priority, recurring)`. */
  datatype Row = Row(
    username: string, task: string, status: string, date: string,
    favorite: int, category: string, priority: string, recurring: string)

  /** The `todo` table, keyed by rowid. */
  type Table = map<int, Row>

  /** What `get_user_email_key` fetches: `(email, pushover_key)`. */
  datatype Contact = Contact(email: string, pushoverKey: string)

  // ---------------------------------------------------------------------------
  // SQLite's LIKE
  // ---------------------------------------------------------------------------

  /**
   * `s LIKE p` in SQLite: '%' matches any run of characters, '_' any single
   * character, and letters compare without regard to ASCII case.
   */
  predicate Like(s: string, p: string)
    decreases |s| + |p|
  {
    if p == [] then s == []
    else if p[0] == '%' then Like(s, p[1..]) || (s != [] && Like(s[1..], p))
    else s != [] && (p[0] == '_' || LowerChar(p[0]) == LowerChar(s[0])) && Like(s[1..], p[1..])
  }

  predicate NoWildcards(q: string)
  {
    forall k :: 0 <= k < |q| ==> q[k] != '%' && q[k] != '_'
  }

  lemma {:induction false} LikeAnything(s: string)
    ensures Like(s, "%")
    decreases |s|
  {
    if s != [] {
      LikeAnything(s[1..]);
    }
  }

  /** `q` is a prefix of `s` when letters are compared without regard to ASCII case. */
  predicate PrefixUpToCase(s: string, q: string)
  {
    |q| <= |s| && forall i :: 0 <= i < |q| ==> LowerChar(s[i]) == LowerChar(q[i])
  }

  /** Without wildcards, `s LIKE q || '%'` says `q` is a prefix of `s` up to case. */
  lemma {:induction false} LikePrefix(s: string, q: string)
    requires NoWildcards(q)
    ensures Like(s, q + "%") <==> PrefixUpToCase(s, q)
    decreases |q|
  {
    if q == [] {
      LikeAnything(s);
      assert q + "%" == "%";
    } else {
      assert (q + "%")[0] == q[0] && (q + "%")[1..] == q[1..] + "%";
      assert NoWildcards(q[1..]) by {
        forall k | 0 <= k < |q| - 1 ensures q[1..][k] != '%' && q[1..][k] != '_' {
          assert q[1..][k] == q[k + 1];
        }
      }
      if s != [] {
        LikePrefix(s[1..], q[1..]);
        if PrefixUpToCase(s[1..], q[1..]) && LowerChar(s[0]) == LowerChar(q[0]) {
          forall i | 0 <= i < |q| ensures LowerChar(s[i]) == LowerChar(q[i]) {
            if i > 0 {
              assert s[1..][i - 1] == s[i] && q[1..][i - 1] == q[i];
            }
          }
        }
        if PrefixUpToCase(s, q) {
          forall i | 0 <= i < |q| - 1 ensures LowerChar(s[1..][i]) == LowerChar(q[1..][i]) {
            assert s[1..][i] == s[i + 1] && q[1..][i] == q[i + 1];
          }
          assert LowerChar(s[0]) == LowerChar(q[0]);
        }
      }
    }
  }

  /** A leading '%' lets the rest of the pattern match any suffix. */
  lemma {:induction false} LikeSuffix(s: string, p: string)
    ensures Like(s, "%" + p) <==> exists k :: 0 <= k <= |s| && Like(s[k..], p)
    decreases |s|
  {
    assert ("%" + p)[1..] == p;
    assert s[0..] == s;
    if s != [] {
      LikeSuffix(s[1..], p);
      if exists k :: 0 <= k <= |s| && Like(s[k..], p) {
        var k :| 0 <= k <= |s| && Like(s[k..], p);
        if k > 0 {
          assert s[1..][k - 1..] == s[k..];
        }
      }
      if exists k :: 0 <= k <= |s| - 1 && Like(s[1..][k..], p) {
        var k :| 0 <= k <= |s| - 1 && Like(s[1..][k..], p);
        assert s[1..][k..] == s[k + 1..];
      }
    }
  }

  /**
   * The pattern `'%' || q || '%'` of `search_tasks`, for a query without
   * wildcards, matches exactly the texts that contain the query, ignoring
   * ASCII case.
   */
  lemma SearchPatternIsSubstring(s: string, q: string)
    requires NoWildcards(q)
    ensures Like(s, "%" + q + "%") <==> Contains(Lower(s), Lower(q))
  {
    assert "%" + q + "%" == "%" + (q + "%");
    LikeSuffix(s, q + "%");
    forall k | 0 <= k <= |s|
      ensures Like(s[k..], q + "%") <==> k + |q| <= |s| && Lower(q) <= Lower(s)[k..]
    {
      LikePrefixAt(s, q, k);
    }
  }

  lemma LikePrefixAt(s: string, q: string, k: int)
    requires NoWildcards(q) && 0 <= k <= |s|
    ensures Like(s[k..], q + "%") <==> k + |q| <= |s| && Lower(q) <= Lower(s)[k..]
  {
    LikePrefix(s[k..], q);
    if PrefixUpToCase(s[k..], q) {
      forall i | 0 <= i < |q| ensures Lower(q)[i] == Lower(s)[k..][i] {
        assert s[k..][i] == s[k + i];
      }
    }
    if k + |q| <= |s| && Lower(q) <= Lower(s)[k..] {
      forall i | 0 <= i < |q| ensures LowerChar(s[k..][i]) == LowerChar(q[i]) {
        assert Lower(q)[i] == Lower(s)[k + i];
        assert s[k..][i] == s[k + i];
      }
    }
  }

  // ---------------------------------------------------------------------------
  // Queries of the todo table
  // ---------------------------------------------------------------------------

  /**
   * The WHERE clauses of `get_tasks` (username=?), `search_tasks`
   * (username=? AND (task LIKE ? OR date LIKE ? OR status LIKE ?)) and
   * `get_due_tasks` (date=?).
   */
  datatype Query = OwnedBy(username: string) | Search(username: string, text: string) | DueOn(date: string)

  predicate Matches(q: Query, row: Row)
  {
    match q
    case OwnedBy(u) => row.username == u
    case Search(u, text) =>
      var pattern := "%" + text + "%";
      row.username == u && (Like(row.task, pattern) || Like(row.date, pattern) || Like(row.status, pattern))
    case DueOn(d) => row.date == d
  }

  /** The rows with rowid below `bound` that satisfy `q`, in rowid order, each with its rowid. */
  function Select(t: Table, q: Query, bound: int): seq<(int, Row)>
    decreases bound
  {
    if bound <= 1 then []
    else
      var id := bound - 1;
      Select(t, q, id) + (if id in t && Matches(q, t[id]) then [(id, t[id])] else [])
  }

  predicate IncreasingIds(rows: seq<(int, Row)>)
  {
    forall i, j :: 0 <= i < j < |rows| ==> rows[i].0 < rows[j].0
  }

  /**
   * A selection holds exactly the matching rows with a positive rowid below
   * the bound, each once and in rowid order.
   */
  lemma {:induction false} SelectSpec(t: Table, q: Query, bound: int)
    ensures forall id, row :: (id, row) in Select(t, q, bound) <==> 1 <= id < bound && id in t && t[id] == row && Matches(q, row)
    ensures IncreasingIds(Select(t, q, bound))
    decreases bound
  {
    if bound > 1 {
      SelectSpec(t, q, bound - 1);
    }
  }

  /** Searching never reaches beyond the searching user's own tasks. */
  lemma SearchWithinOwner(t: Table, u: string, text: string, bound: int)
    ensures forall x :: x in Select(t, Search(u, text), bound) ==> x in Select(t, OwnedBy(u), bound)
  {
    SelectSpec(t, Search(u, text), bound);
    SelectSpec(t, OwnedBy(u), bound);
  }

  // ---------------------------------------------------------------------------
  // The users table
  // ---------------------------------------------------------------------------

  /** `login_user`: every user row with this username and password, in insertion order. */
  function CredentialMatches(users: seq<User>, u: string, password: string): seq<User>
  {
    if users == [] then []
    else
      var last := users[|users| - 1];
      CredentialMatches(users[..|users| - 1], u, password)
      + (if last.username == u && last.password == password then [last] else [])
  }

  lemma {:induction false} CredentialMatchesSpec(users: seq<User>, u: string, password: string)
    ensures forall x :: x in CredentialMatches(users, u, password) <==> x in users && x.username == u && x.password == password
  {
    if users != [] {
      CredentialMatchesSpec(users[..|users| - 1], u, password);
      assert users == users[..|users| - 1] + [users[|users| - 1]];
    }
  }

  /** `get_user_email_key`: the contact of the first user row with this username. */
  function ContactOf(users: seq<User>, u: string): (c: Option<Contact>)
  {
    if users == [] then None
    else if users[0].username == u then Some(Contact(users[0].email, users[0].pushoverKey))
    else ContactOf(users[1..], u)
  }

  lemma {:induction false} ContactOfSpec(users: seq<User>, u: string)
    ensures ContactOf(users, u).None? <==> forall i :: 0 <= i < |users| ==> users[i].username != u
    ensures ContactOf(users, u).Some? ==>
      exists i :: 0 <= i < |users| && users[i].username == u
        && ContactOf(users, u) == Some(Contact(users[i].email, users[i].pushoverKey))
        && forall j :: 0 <= j < i ==> users[j].username != u
  {
    if users != [] && users[0].username != u {
      ContactOfSpec(users[1..], u);
      if ContactOf(users, u).Some? {
        var i :| 0 <= i < |users| - 1 && users[1..][i].username == u
          && ContactOf(users[1..], u) == Some(Contact(users[1..][i].email, users[1..][i].pushoverKey))
          && forall j :: 0 <= j < i ==> users[1..][j].username != u;
        assert forall j :: 0 <= j < i + 1 ==> users[j].username != u by {
          forall j | 1 <= j < i + 1 ensures users[j].username != u {
            assert users[j] == users[1..][j - 1];
          }
        }
      } else {
        forall i | 1 <= i < |users| ensures users[i].username != u {
          assert users[i] == users[1..][i - 1];
        }
      }
    }
  }

  /**
   * Signing up never replaces an account: a second row with the same
   * credentials is appended, both are found at login, and the contact
   * lookup keeps answering from the first one.
   */
  lemma {:induction false} DuplicateSignup(users: seq<User>, x: User)
    ensures CredentialMatches(users + [x, x], x.username, x.password)
         == CredentialMatches(users, x.username, x.password) + [x, x]
    ensures ContactOf(users + [x], x.username).Some?
    ensures ContactOf(users + [x, x], x.username) == ContactOf(users + [x], x.username)
  {
    var u, p := x.username, x.password;
    assert (users + [x, x])[..|users| + 1] == users + [x];
    assert (users + [x])[..|users|] == users;
    ContactAppend(users, x, u);
    assert users + [x, x] == (users + [x]) + [x];
    ContactAppend(users + [x], x, u);
  }

  /** Appending a row only changes the contact lookup of a username not seen before. */
  lemma {:induction false} ContactAppend(users: seq<User>, x: User, u: string)
    ensures ContactOf(users + [x], u) ==
      if ContactOf(users, u).Some? then ContactOf(users, u)
      else if x.username == u then Some(Contact(x.email, x.pushoverKey))
      else None
  {
    if users != [] {
      assert (users + [x])[1..] == users[1..] + [x];
      ContactAppend(users[1..], x, u);
    }
  }

  // ---------------------------------------------------------------------------
  // update_task_status
  // ---------------------------------------------------------------------------

  /** The errors `update_task_status` can raise. */
  datatype UpdateError =
    | NoSuchRow             // the re-read of a missing row yields None, which cannot be unpacked
    | DateFailure(DateError) // `compute_next_date` raised

  /** `new_status and new_status.lower() == "done"`. */
  predicate IsDone(status: string)
  {
    status != [] && Lower(status) == "done"
  }

  /** The spellings the status form and callers use all count as done. */
  lemma DoneSpellings()
    ensures IsDone("Done") && IsDone("done") && IsDone("DONE")
    ensures !IsDone("ToDo") && !IsDone("In Progress") && !IsDone("")
  {
    assert Lower("Done") == "done";
    assert Lower("DONE") == "done";
  }

  /** `rec and rec != "None"`. */
  predicate Recurs(rule: string)
  {
    rule != [] && rule != "None"
  }

  /**
   * The table after `update_task_status(id, status)` and whether it raised.
   * The status write comes first and stays even when the rollover fails.
   */
  function StatusUpdate(t: Table, id: int, status: string): (Table, Outcome<UpdateError>)
  {
    var t1 := if id in t then t[id := t[id].(status := status)] else t;
    if !IsDone(status) then (t1, Pass)
    else if id !in t1 then (t1, Fail(NoSuchRow))
    else if !Recurs(t1[id].recurring) then (t1, Pass)
    else
      match ComputeNextDate(t1[id].recurring, t1[id].date)
      case Err(e) => (t1, Fail(DateFailure(e)))
      case Ok(next) => (t1[id := t1[id].(date := next, status := "ToDo")], Pass)
  }

  /** Only the addressed row can change, and no row appears or disappears. */
  lemma StatusUpdateFrame(t: Table, id: int, status: string)
    ensures StatusUpdate(t, id, status).0.Keys == t.Keys
    ensures forall k :: k in t && k != id ==> StatusUpdate(t, id, status).0[k] == t[k]
  {
  }

  /**
   * The effect on the addressed row: a completed recurring task whose next
   * date can be computed comes back as "ToDo" on that date; otherwise the row
   * keeps its date and takes the new status, and the call raises exactly
   * when the rollover was due but the date could not be advanced.
   */
  lemma StatusUpdateRow(t: Table, id: int, status: string)
    requires id in t
    ensures var (t', outcome) := StatusUpdate(t, id, status);
      var row := t[id];
      if IsDone(status) && Recurs(row.recurring) && ComputeNextDate(row.recurring, row.date).Ok? then
        t'[id] == row.(status := "ToDo", date := ComputeNextDate(row.recurring, row.date).value) && outcome == Pass
      else
        t'[id] == row.(status := status)
        && (outcome == Pass <==> !(IsDone(status) && Recurs(row.recurring)))
  {
  }

  /** A missing rowid changes nothing, but marking it done raises. */
  lemma StatusUpdateMissingRow(t: Table, id: int, status: string)
    requires id !in t
    ensures StatusUpdate(t, id, status).0 == t
    ensures StatusUpdate(t, id, status).1 == (if IsDone(status) then Fail(NoSuchRow) else Pass)
  {
  }

  /** A recurring task whose date does not parse is left "Done" with its date, and the call raises. */
  lemma UnparsableDateLeavesDone(t: Table, id: int, status: string)
    requires id in t && IsDone(status) && Recurs(t[id].recurring) && ParseDate(t[id].date).Err?
    ensures StatusUpdate(t, id, status).0 == t[id := t[id].(status := status)]
    ensures StatusUpdate(t, id, status).0[id].date == t[id].date
    ensures StatusUpdate(t, id, status).1 == Fail(DateFailure(Unparsable))
  {
  }

  /** Marking a non-recurring task done twice is the same as marking it done once. */
  lemma NonRecurringDoneIdempotent(t: Table, id: int, status: string)
    requires id in t && IsDone(status) && !Recurs(t[id].recurring)
    ensures var once := StatusUpdate(t, id, status);
      once.1 == Pass && once.0[id].status == status && once.0[id].date == t[id].date
      && StatusUpdate(once.0, id, status) == once
  {
    var t1 := t[id := t[id].(status := status)];
    assert t1[id := t1[id].(status := status)] == t1;
  }

  /** Every row's date is a zero-padded, valid date. */
  ghost predicate WellDated(t: Table)
  {
    forall k :: k in t ==> Canonical(t[k].date) && ParseDate(t[k].date).Ok?
  }

  /**
   * Status changes keep every date well formed; on such a table a completed
   * recurring task fails to roll over only when its next date is past
   * 9999-12-31.
   */
  lemma StatusUpdateKeepsDates(t: Table, id: int, status: string)
    requires WellDated(t)
    ensures WellDated(StatusUpdate(t, id, status).0)
    ensures StatusUpdate(t, id, status).1 in {Pass, Fail(NoSuchRow), Fail(DateFailure(Overflow))}
  {
    if id in t && IsDone(status) && Recurs(t[id].recurring) {
      var row := t[id];
      var t1 := t[id := row.(status := status)];
      assert t1[id].date == row.date && t1[id].recurring == row.recurring;
      assert ParseDate(row.date).Ok?;
      var r := ComputeNextDate(row.recurring, row.date);
      if r.Ok? {
        var t2 := t1[id := t1[id].(date := r.value, status := "ToDo")];
        assert StatusUpdate(t, id, status) == (t2, Pass);
        assert Canonical(t2[id].date) && ParseDate(t2[id].date).Ok?;
      } else {
        assert StatusUpdate(t, id, status) == (t1, Fail(DateFailure(r.error)));
      }
    }
  }

  lemma MapUpdateTwice(t: Table, id: int, a: Row, b: Row)
    ensures t[id := a][id := b] == t[id := b]
  {
  }

  lemma RolloverAfterDone(t: Table, id: int, status: string, rule: string, date: string, next: string)
    requires id in t && t[id].recurring == rule && t[id].date == date
    requires IsDone(status) && Recurs(rule) && ComputeNextDate(rule, date) == Ok(next)
    ensures StatusUpdate(t, id, status) == (t[id := t[id].(status := "ToDo", date := next)], Pass)
  {
    var t1 := t[id := t[id].(status := status)];
    assert t1[id].recurring == rule && t1[id].date == date;
    assert StatusUpdate(t, id, status) == (t1[id := t1[id].(date := next, status := "ToDo")], Pass);
    MapUpdateTwice(t, id, t[id].(status := status), t[id].(status := "ToDo", date := next));
  }
}
