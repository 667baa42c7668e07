/**
 * The two input checks of the sign-up and add-task forms: the email pattern
 * `re.match(r"[^@]+@[^@]+\.[^@]+", email)` and the non-blank title test
 * `task.strip()`.
 */
module Forms {

  // ---------------------------------------------------------------------------
  // Title: `task.strip()` is non-empty
  // ---------------------------------------------------------------------------

  /** The characters Python's `str.isspace` accepts, which `strip()` removes, by code point. */
  predicate IsSpace(c: char)
  {
    var n := c as int;
    (0x09 <= n <= 0x0D) || (0x1C <= n <= 0x20) || n == 0x85 || n == 0xA0 || n == 0x1680
    || (0x2000 <= n <= 0x200A) || n == 0x2028 || n == 0x2029 || n == 0x202F || n == 0x205F
    || n == 0x3000
  }

  // `strip` is stated for any set of characters to drop, given here as a
  // predicate; the form uses it with `IsSpace`.

  function StripLeft(s: string, drop: char -> bool): string
  {
    if s != [] && drop(s[0]) then StripLeft(s[1..], drop) else s
  }

  function StripRight(s: string, drop: char -> bool): string
  {
    if s != [] && drop(s[|s| - 1]) then StripRight(s[..|s| - 1], drop) else s
  }

  function Strip(s: string, drop: char -> bool): string
  {
    StripRight(StripLeft(s, drop), drop)
  }

  /** Every character of `s` from index `lo` up to `hi` satisfies `drop`. */
  predicate DroppableBetween(s: string, lo: int, hi: int, drop: char -> bool)
    requires 0 <= lo && hi <= |s|
  {
    forall k :: lo <= k < hi ==> drop(s[k])
  }

  /** How many characters `StripLeft` removes. */
  function LeftCut(s: string, drop: char -> bool): (i: nat)
    ensures i <= |s|
  {
    if s != [] && drop(s[0]) then 1 + LeftCut(s[1..], drop) else 0
  }

  /** Where the text `StripRight` keeps ends. */
  function RightCut(s: string, drop: char -> bool): (j: nat)
    ensures j <= |s|
  {
    if s != [] && drop(s[|s| - 1]) then RightCut(s[..|s| - 1], drop) else |s|
  }

  lemma {:induction false} StripLeftSpec(s: string, drop: char -> bool)
    ensures var i := LeftCut(s, drop);
      StripLeft(s, drop) == s[i..] && DroppableBetween(s, 0, i, drop) && (i < |s| ==> !drop(s[i]))
  {
    if s != [] && drop(s[0]) {
      var i := LeftCut(s[1..], drop);
      StripLeftSpec(s[1..], drop);
      assert s[1..][i..] == s[i + 1..];
      forall k | 1 <= k < i + 1 ensures drop(s[k]) {
        assert s[k] == s[1..][k - 1];
      }
      if i + 1 < |s| {
        assert s[i + 1] == s[1..][i];
      }
    }
  }

  lemma {:induction false} StripRightSpec(s: string, drop: char -> bool)
    ensures var j := RightCut(s, drop);
      StripRight(s, drop) == s[..j] && DroppableBetween(s, j, |s|, drop) && (0 < j ==> !drop(s[j - 1]))
  {
    if s != [] && drop(s[|s| - 1]) {
      var t := s[..|s| - 1];
      var j := RightCut(t, drop);
      StripRightSpec(t, drop);
      assert t[..j] == s[..j];
      forall k | j <= k < |s| ensures drop(s[k]) {
        if k < |s| - 1 { assert s[k] == t[k]; }
      }
      if 0 < j {
        assert s[j - 1] == t[j - 1];
      }
    } else {
      assert s[..|s|] == s;
    }
  }

  /**
   * `strip` cuts a run of droppable characters off each end and nothing else:
   * the result is a slice of `s`, everything outside it is droppable, and
   * neither of its ends is.
   */
  lemma StripSpec(s: string, drop: char -> bool)
    ensures exists i, j :: 0 <= i <= j <= |s| && Strip(s, drop) == s[i..j]
                           && DroppableBetween(s, 0, i, drop) && DroppableBetween(s, j, |s|, drop)
    ensures Strip(s, drop) == [] || (!drop(Strip(s, drop)[0]) && !drop(Strip(s, drop)[|Strip(s, drop)| - 1]))
  {
    var l := StripLeft(s, drop);
    var i := LeftCut(s, drop);
    StripLeftSpec(s, drop);
    var j := RightCut(l, drop);
    StripRightSpec(l, drop);
    var r := StripRight(l, drop);
    assert r == Strip(s, drop);
    assert l[..j] == s[i..i + j];
    forall k | i + j <= k < |s| ensures drop(s[k]) {
      assert s[k] == l[k - i];
    }
    assert DroppableBetween(s, i + j, |s|, drop);
    if r != [] {
      assert r[0] == l[0] == s[i];
      assert r[|r| - 1] == l[j - 1];
    }
  }

  /** The add-task form accepts a title when `task.strip()` is not empty. */
  predicate HasTitle(task: string)
  {
    Strip(task, IsSpace) != []
  }

  /** A title passes exactly when some character of it is not white space. */
  lemma HasTitleIff(task: string)
    ensures HasTitle(task) <==> exists k :: 0 <= k < |task| && !IsSpace(task[k])
  {
    StripSpec(task, IsSpace);
    var i, j :| 0 <= i <= j <= |task| && Strip(task, IsSpace) == task[i..j]
                && DroppableBetween(task, 0, i, IsSpace) && DroppableBetween(task, j, |task|, IsSpace);
    if HasTitle(task) {
      assert !IsSpace(task[i]);
    } else {
      assert i == j;
    }
  }

  lemma TitleExamples()
    ensures !HasTitle("")
    ensures !HasTitle(" \t\n")
    ensures HasTitle("  Pay rent ")
  {
    HasTitleIff("");
    HasTitleIff(" \t\n");
    HasTitleIff("  Pay rent ");
    assert !IsSpace("  Pay rent "[2]);
  }

  // ---------------------------------------------------------------------------
  // Email: `re.match(r"[^@]+@[^@]+\.[^@]+", email)`
  // ---------------------------------------------------------------------------

  predicate NoAt(t: string)
  {
    forall k :: 0 <= k < |t| ==> t[k] != '@'
  }

  /**
   * What the regular expression means, anchored at the start only: a
   * non-empty run without '@' ending at index `i`, the '@', a non-empty run
   * without '@' ending at the '.' at index `j`, and at least one more
   * character that is not '@'; anything may follow.
   */
  ghost predicate PatternMatchesAt(s: string, i: int, j: int)
  {
    0 < i && i + 1 < j && j + 1 < |s| && s[i] == '@' && s[j] == '.'
    && NoAt(s[..i]) && NoAt(s[i + 1..j + 2])
  }

  ghost predicate PatternMatches(s: string)
  {
    exists i, j :: PatternMatchesAt(s, i, j)
  }

  /** The index of the first `c` in `s`, or `|s|` when there is none. */
  function IndexOf(s: string, c: char): (i: nat)
    ensures i <= |s| && (i < |s| ==> s[i] == c)
    ensures forall k :: 0 <= k < i ==> s[k] != c
  {
    if s == [] then 0 else if s[0] == c then 0 else 1 + IndexOf(s[1..], c)
  }

  /**
   * The email check as a scan: the first '@' has something before it, and the
   * stretch after it up to the next '@' has a '.' that is neither its first
   * nor its last character.
   */
  predicate EmailLooksValid(email: string)
  {
    var i := IndexOf(email, '@');
    0 < i < |email| &&
    var rest := email[i + 1..];
    var n := IndexOf(rest, '@');
    n >= 3 && IndexOf(rest[1..n], '.') < n - 2
  }

  /** The scan accepts exactly the addresses the regular expression matches. */
  lemma EmailLooksValidIff(email: string)
    ensures EmailLooksValid(email) <==> PatternMatches(email)
  {
    if EmailLooksValid(email) {
      ScanFindsMatch(email);
    }
    if PatternMatches(email) {
      var i, j :| PatternMatchesAt(email, i, j);
      MatchPassesScan(email, i, j);
    }
  }

  lemma ScanFindsMatch(email: string)
    requires EmailLooksValid(email)
    ensures PatternMatches(email)
  {
    var i := IndexOf(email, '@');
    var rest := email[i + 1..];
    var n := IndexOf(rest, '@');
    var q := IndexOf(rest[1..n], '.');
    var j := i + 2 + q;
    assert email[j] == rest[1..n][q];
    assert NoAt(email[..i]);
    assert NoAt(email[i + 1..j + 2]) by {
      forall k | i + 1 <= k < j + 2 ensures email[k] != '@' {
        assert email[k] == rest[k - (i + 1)];
      }
    }
    assert PatternMatchesAt(email, i, j);
  }

  lemma MatchPassesScan(email: string, i: int, j: int)
    requires PatternMatchesAt(email, i, j)
    ensures EmailLooksValid(email)
  {
    assert email[..i][0] != '@';
    var at := IndexOf(email, '@');
    assert at == i;
    var rest := email[i + 1..];
    var n := IndexOf(rest, '@');
    assert n >= j + 1 - i;
    var q := j - i - 2;
    assert rest[1..n][q] == email[j] == '.';
    assert IndexOf(rest[1..n], '.') <= q;
  }

  lemma EmailAccepted()
    ensures EmailLooksValid("bo@x.io")
  {
    MatchPassesScan("bo@x.io", 2, 4);
  }

  lemma PatternMatchesExample()
    ensures PatternMatches("alice@example.com")
  {
    assert PatternMatchesAt("alice@example.com", 5, 13);
  }

  lemma EmailRejected()
    ensures !EmailLooksValid("a@.c")
  {
  }

  lemma EmailRejectedWithSecondAt()
    ensures !EmailLooksValid("a@b@c.d")
  {
  }
}
