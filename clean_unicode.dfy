/**
 * The `clean_unicode` management command: for every user, each non-empty
 * text field is passed through the same non-ASCII clean-up as the
 * representations; a user with at least one changed field is saved and
 * counted.
 */
module CleanUnicode {
  import opened Wrappers
  import opened SchedulerSerializers

  /** The text columns the command visits, in its order. */
  datatype TextField = Name | Username | Email | Phone | BusinessName | BusinessAddress | Goals | SessionFocus | SessionNote

  const TextFields: seq<TextField> :=
    [Name, Username, Email, Phone, BusinessName, BusinessAddress, Goals, SessionFocus, SessionNote]

  /**
   * A user row: its text columns (`None` is NULL; a column missing from the
   * map reads as `None`, as `getattr(user, field, None)` does) and every
   * other column, by name.
   */
  datatype UserRow = UserRow(text: map<TextField, Option<string>>, other: map<string, Option<string>>)

  /** A value is looked at when it is a non-empty string. */
  predicate Considered(v: Option<string>) {
    v.Some? && v.value != ""
  }

  /** The value the command leaves in a column. */
  function CleanAttr(v: Option<string>): Option<string> {
    if Considered(v) then Some(Sanitize(v.value)) else v
  }

  /** The row after the command: text columns cleaned, every other column as it was. */
  function CleanRow(row: UserRow): (r: UserRow)
    ensures r.text.Keys == row.text.Keys && r.other == row.other
  {
    row.(text := map k | k in row.text :: CleanAttr(row.text[k]))
  }

  predicate FieldChanges(row: UserRow, f: TextField) {
    f in row.text && CleanAttr(row.text[f]) != row.text[f]
  }

  /** One of the first `n` listed columns changes. */
  predicate ChangesBefore(row: UserRow, n: nat) {
    exists j :: 0 <= j < n && j < |TextFields| && FieldChanges(row, TextFields[j])
  }

  /** Some text column of the row changes. */
  predicate NeedsCleaning(row: UserRow) {
    ChangesBefore(row, |TextFields|)
  }

  lemma ChangesBeforeStep(row: UserRow, n: nat)
    requires n < |TextFields|
    ensures ChangesBefore(row, n + 1) <==> ChangesBefore(row, n) || FieldChanges(row, TextFields[n])
  {
    if ChangesBefore(row, n + 1) && !FieldChanges(row, TextFields[n]) {
      var j :| 0 <= j < n + 1 && j < |TextFields| && FieldChanges(row, TextFields[j]);
      assert j < n;
    }
  }

  function CountNeedingCleaning(rows: seq<UserRow>): nat
    decreases |rows|
  {
    if rows == [] then 0
    else CountNeedingCleaning(rows[..|rows| - 1]) + (if NeedsCleaning(rows[|rows| - 1]) then 1 else 0)
  }

  function CleanAll(rows: seq<UserRow>): (r: seq<UserRow>)
    ensures |r| == |rows|
  {
    seq(|rows|, i requires 0 <= i < |rows| => CleanRow(rows[i]))
  }

  lemma CleanAllAppend(rows: seq<UserRow>, row: UserRow)
    ensures CleanAll(rows + [row]) == CleanAll(rows) + [CleanRow(row)]
  {
    assert forall i :: 0 <= i < |rows| ==> (rows + [row])[i] == rows[i];
  }

  /** Where a column stands in the list: every text column is listed. */
  function FieldIndex(f: TextField): (i: nat)
    ensures i < |TextFields| && TextFields[i] == f
  {
    match f
    case Name => 0
    case Username => 1
    case Email => 2
    case Phone => 3
    case BusinessName => 4
    case BusinessAddress => 5
    case Goals => 6
    case SessionFocus => 7
    case SessionNote => 8
  }

  /** No column is listed twice: the position of the column at `j` is `j`. */
  lemma FieldIndexOfPosition(j: nat)
    requires j < |TextFields|
    ensures FieldIndex(TextFields[j]) == j
  {
  }

  /** After the command every text column of every user is ASCII (or NULL). */
  lemma CleanRowAscii(row: UserRow, f: TextField)
    requires f in row.text && CleanRow(row).text[f].Some?
    ensures AllAscii(CleanRow(row).text[f].value)
  {
    var v := row.text[f];
    if Considered(v) {
      SanitizeAscii(v.value);
    }
  }

  /** A cleaned row is left alone by a second pass. */
  lemma CleanRowIdempotent(row: UserRow)
    ensures CleanRow(CleanRow(row)) == CleanRow(row)
    ensures !NeedsCleaning(CleanRow(row))
  {
    var once := CleanRow(row);
    forall k | k in once.text ensures CleanAttr(once.text[k]) == once.text[k] {
      if Considered(row.text[k]) {
        SanitizeIdempotent(row.text[k].value);
      }
    }
    assert CleanRow(once).text == once.text;
  }

  /** Running the command a second time cleans and counts nobody. */
  lemma {:induction false} SecondRunCountsNobody(rows: seq<UserRow>)
    ensures CountNeedingCleaning(CleanAll(rows)) == 0
    ensures CleanAll(CleanAll(rows)) == CleanAll(rows)
    decreases |rows|
  {
    if rows != [] {
      var init := rows[..|rows| - 1];
      assert CleanAll(rows)[..|rows| - 1] == CleanAll(init);
      SecondRunCountsNobody(init);
      CleanRowIdempotent(rows[|rows| - 1]);
      forall i | 0 <= i < |rows| ensures CleanRow(CleanRow(rows[i])) == CleanRow(rows[i]) {
        CleanRowIdempotent(rows[i]);
      }
    }
  }

  /** A row whose text is all ASCII is not touched and not counted. */
  lemma AsciiRowUntouched(row: UserRow)
    requires forall k :: k in row.text && row.text[k].Some? ==> AllAscii(row.text[k].value)
    ensures !NeedsCleaning(row) && CleanRow(row) == row
  {
    forall k | k in row.text ensures CleanAttr(row.text[k]) == row.text[k] {
      if Considered(row.text[k]) {
        SanitizeKeepsAscii(row.text[k].value);
      }
    }
    assert CleanRow(row).text == row.text;
  }

  /** A row with nothing to clean is its own cleaned form. */
  lemma NothingToClean(row: UserRow)
    requires !NeedsCleaning(row)
    ensures CleanRow(row) == row
  {
    forall k | k in row.text ensures CleanAttr(row.text[k]) == row.text[k] {
      assert !FieldChanges(row, TextFields[FieldIndex(k)]);
    }
    assert CleanRow(row).text == row.text;
  }

  /** One step of the field loop: the column is rewritten only when cleaning changes it. */
  function CleanField(row: UserRow, f: TextField): (r: UserRow)
    ensures r.other == row.other && r.text.Keys == row.text.Keys
    ensures f in row.text ==> r.text[f] == CleanAttr(row.text[f])
    ensures forall k :: k in row.text && k != f ==> r.text[k] == row.text[k]
  {
    if f in row.text && Considered(row.text[f]) && Sanitize(row.text[f].value) != row.text[f].value
    then row.(text := row.text[f := Some(Sanitize(row.text[f].value))])
    else row
  }

  /** The row once the field loop has visited the first `j` listed columns. */
  function CleanedUpTo(row: UserRow, j: nat): UserRow
    requires j <= |TextFields|
    decreases j
  {
    if j == 0 then row else CleanField(CleanedUpTo(row, j - 1), TextFields[j - 1])
  }

  /** The field loop keeps the set of columns and every other column. */
  lemma {:induction false} CleanedUpToKeys(row: UserRow, j: nat)
    requires j <= |TextFields|
    ensures CleanedUpTo(row, j).other == row.other && CleanedUpTo(row, j).text.Keys == row.text.Keys
    decreases j
  {
    if j > 0 {
      CleanedUpToKeys(row, j - 1);
    }
  }

  /** After `j` steps a column is cleaned exactly when it is listed before position `j`. */
  lemma {:induction false} CleanedUpToKey(row: UserRow, j: nat, k: TextField)
    requires j <= |TextFields| && k in row.text
    ensures k in CleanedUpTo(row, j).text
    ensures CleanedUpTo(row, j).text[k] == if FieldIndex(k) < j then CleanAttr(row.text[k]) else row.text[k]
    decreases j
  {
    if j > 0 {
      CleanedUpToKey(row, j - 1, k);
      FieldIndexOfPosition(j - 1);
      if k != TextFields[j - 1] {
        assert FieldIndex(k) != j - 1;
      }
    }
  }

  /** After `j` steps exactly the columns listed before position `j` are cleaned. */
  lemma CleanedUpToMeaning(row: UserRow, j: nat)
    requires j <= |TextFields|
    ensures CleanedUpTo(row, j).other == row.other && CleanedUpTo(row, j).text.Keys == row.text.Keys
    ensures forall k :: k in row.text ==>
      CleanedUpTo(row, j).text[k] == if FieldIndex(k) < j then CleanAttr(row.text[k]) else row.text[k]
  {
    CleanedUpToKeys(row, j);
    forall k | k in row.text
      ensures CleanedUpTo(row, j).text[k] == if FieldIndex(k) < j then CleanAttr(row.text[k]) else row.text[k]
    {
      CleanedUpToKey(row, j, k);
    }
  }

  /** After the last column the loop has produced the cleaned row. */
  lemma CleanedUpToEnd(row: UserRow)
    ensures CleanedUpTo(row, |TextFields|) == CleanRow(row)
  {
    CleanedUpToMeaning(row, |TextFields|);
    assert CleanedUpTo(row, |TextFields|).text == CleanRow(row).text;
  }

  /** The field loop for one user: the row it leaves and whether any column changed. */
  method CleanUser(row: UserRow) returns (cleaned: UserRow, updated: bool)
    ensures cleaned == CleanRow(row)
    ensures updated == NeedsCleaning(row)
    ensures !updated ==> cleaned == row
  {
    cleaned, updated := row, false;
    var j := 0;
    while j < |TextFields|
      invariant 0 <= j <= |TextFields|
      invariant cleaned == CleanedUpTo(row, j)
      invariant updated <==> ChangesBefore(row, j)
      decreases |TextFields| - j
    {
      var field := TextFields[j];
      CleanedUpToMeaning(row, j);
      FieldIndexOfPosition(j);
      ChangesBeforeStep(row, j);
      if field in cleaned.text {
        var value := cleaned.text[field];
        if Considered(value) {
          var cleanedValue := Sanitize(value.value);
          if cleanedValue != value.value {
            cleaned := cleaned.(text := cleaned.text[field := Some(cleanedValue)]);
            updated := true;
          }
        }
      }
      j := j + 1;
    }
    CleanedUpToEnd(row);
    if !updated {
      NothingToClean(row);
    }
  }

  /** What one more row adds to the cleaned rows and to the count. */
  lemma HandleStep(rows: seq<UserRow>, i: nat)
    requires i < |rows|
    ensures CleanAll(rows[..i + 1]) == CleanAll(rows[..i]) + [CleanRow(rows[i])]
    ensures CountNeedingCleaning(rows[..i + 1]) == CountNeedingCleaning(rows[..i]) + (if NeedsCleaning(rows[i]) then 1 else 0)
    ensures rows[i..][1..] == rows[i + 1..]
  {
    assert rows[..i + 1][..i] == rows[..i];
    assert rows[..i + 1] == rows[..i] + [rows[i]];
    CleanAllAppend(rows[..i], rows[i]);
  }

  // ---------------------------------------------------------------------
  // The unique index on `username`

  /** The table once the loop has handled the first `i` users with no save refused. */
  function StateAt(rows: seq<UserRow>, i: nat): (r: seq<UserRow>)
    requires i <= |rows|
    ensures |r| == |rows|
  {
    CleanAll(rows[..i]) + rows[i..]
  }

  /** The username of a row, when it has one. */
  function UsernameOf(row: UserRow): Option<string> {
    if Username in row.text then row.text[Username] else None
  }

  /** `AbstractUser.username` is unique: storing `row` at position `i` is refused when another row holds its name. */
  predicate UsernameTaken(rows: seq<UserRow>, i: nat, row: UserRow) {
    UsernameOf(row).Some? && exists k :: 0 <= k < |rows| && k != i && UsernameOf(rows[k]) == UsernameOf(row)
  }

  /** The save of the `i`-th user raises `IntegrityError`: it has something to clean and its cleaned username is taken. */
  predicate SaveRefused(rows: seq<UserRow>, i: nat)
    requires i < |rows|
  {
    NeedsCleaning(rows[i]) && UsernameTaken(StateAt(rows, i), i, CleanRow(rows[i]))
  }

  /** The first refused save at position `i` or later, if any. */
  function FirstRefusalFrom(rows: seq<UserRow>, i: nat): (r: Option<nat>)
    requires i <= |rows|
    ensures r.Some? ==> i <= r.value < |rows| && SaveRefused(rows, r.value)
    decreases |rows| - i
  {
    if i == |rows| then None
    else if SaveRefused(rows, i) then Some(i)
    else FirstRefusalFrom(rows, i + 1)
  }

  function FirstRefusal(rows: seq<UserRow>): Option<nat> {
    FirstRefusalFrom(rows, 0)
  }

  /** No save before the first refused one is refused. */
  lemma {:induction false} NothingRefusedBefore(rows: seq<UserRow>, i: nat, j: nat)
    requires i <= j < |rows|
    requires FirstRefusalFrom(rows, i).None? || j < FirstRefusalFrom(rows, i).value
    ensures !SaveRefused(rows, j)
    decreases j - i
  {
    if i < j {
      NothingRefusedBefore(rows, i + 1, j);
    }
  }

  /** One step of the loop: the table it sees is `StateAt(rows, i)`, and whether the save of user `i` is refused. */
  lemma RefusalStep(rows: seq<UserRow>, i: nat, state: seq<UserRow>)
    requires i < |rows| == |state|
    requires state[..i] == CleanAll(rows[..i]) && state[i..] == rows[i..]
    ensures state == StateAt(rows, i) && state[i] == rows[i]
    ensures FirstRefusalFrom(rows, i) ==
      if NeedsCleaning(rows[i]) && UsernameTaken(state, i, CleanRow(rows[i])) then Some(i) else FirstRefusalFrom(rows, i + 1)
  {
    assert state == state[..i] + state[i..];
    assert state[i] == state[i..][0];
  }

  /**
   * `Command.handle`. The command has no `try` (the `transaction` import is
   * unused), so a refused save ends the run: the users before it stay
   * saved, the rest untouched, and no count is reported. Otherwise every
   * row ends up cleaned and the count is the number of rows that had
   * something to clean.
   */
  method Handle(users: array<UserRow>) returns (usersUpdated: nat, aborted: bool)
    modifies users
    ensures aborted <==> FirstRefusal(old(users[..])).Some?
    ensures !aborted ==> users[..] == CleanAll(old(users[..])) && usersUpdated == CountNeedingCleaning(old(users[..]))
    ensures aborted ==> var stop := FirstRefusal(old(users[..])).value;
      users[..] == StateAt(old(users[..]), stop) && usersUpdated == CountNeedingCleaning(old(users[..])[..stop])
  {
    ghost var orig := users[..];
    usersUpdated := 0;
    var i := 0;
    while i < users.Length
      invariant 0 <= i <= users.Length == |orig|
      invariant users[..i] == CleanAll(orig[..i])
      invariant users[i..] == orig[i..]
      invariant usersUpdated == CountNeedingCleaning(orig[..i])
      invariant FirstRefusal(orig) == FirstRefusalFrom(orig, i)
      decreases users.Length - i
    {
      HandleStep(orig, i);
      RefusalStep(orig, i, users[..]);
      var cleaned, updated := CleanUser(users[i]);
      if updated {
        if UsernameTaken(users[..], i, cleaned) {
          return usersUpdated, true;
        }
        users[i] := cleaned;
        usersUpdated := usersUpdated + 1;
      }
      assert users[..i + 1] == users[..i] + [cleaned];
      assert users[i + 1..] == users[i..][1..];
      i := i + 1;
    }
    assert orig[..i] == orig;
    assert users[..] == users[..i];
    aborted := false;
  }

  /** Cleaning leaves an ASCII username (or none) as it was. */
  lemma CleanKeepsAsciiName(row: UserRow)
    requires UsernameOf(row).Some? ==> AllAscii(UsernameOf(row).value)
    ensures UsernameOf(CleanRow(row)) == UsernameOf(row)
  {
    if Username in row.text && Considered(row.text[Username]) {
      SanitizeKeepsAscii(row.text[Username].value);
    }
  }

  /** Under distinct ASCII usernames the save of user `i` is not refused. */
  lemma DistinctAsciiNameSaved(rows: seq<UserRow>, i: nat)
    requires forall k :: 0 <= k < |rows| && UsernameOf(rows[k]).Some? ==> AllAscii(UsernameOf(rows[k]).value)
    requires forall a, b :: 0 <= a < b < |rows| && UsernameOf(rows[a]).Some? ==> UsernameOf(rows[a]) != UsernameOf(rows[b])
    requires i < |rows|
    ensures !SaveRefused(rows, i)
  {
    var state := StateAt(rows, i);
    CleanKeepsAsciiName(rows[i]);
    forall k | 0 <= k < |rows|
      ensures UsernameOf(state[k]) == UsernameOf(rows[k])
    {
      if k < i {
        assert state[k] == CleanRow(rows[k]);
        CleanKeepsAsciiName(rows[k]);
      } else {
        assert state[k] == rows[k];
      }
    }
  }

  /** With distinct ASCII usernames no save is ever refused, so the run completes. */
  lemma DistinctAsciiNamesComplete(rows: seq<UserRow>)
    requires forall k :: 0 <= k < |rows| && UsernameOf(rows[k]).Some? ==> AllAscii(UsernameOf(rows[k]).value)
    requires forall a, b :: 0 <= a < b < |rows| && UsernameOf(rows[a]).Some? ==> UsernameOf(rows[a]) != UsernameOf(rows[b])
    ensures FirstRefusal(rows).None?
  {
    if FirstRefusal(rows).Some? {
      DistinctAsciiNameSaved(rows, FirstRefusal(rows).value);
    }
  }

  function NamedUser(name: string): UserRow {
    UserRow(map[Username := Some(name)], map[])
  }

  lemma CleanNamedUser(name: string)
    requires name != ""
    ensures UsernameOf(CleanRow(NamedUser(name))) == Some(Sanitize(name))
  {
    var row := NamedUser(name);
    assert Username in row.text && row.text[Username] == Some(name);
    assert CleanRow(row).text[Username] == CleanAttr(Some(name));
  }

  lemma NamedUserNeedsCleaning(name: string)
    requires name != "" && Sanitize(name) != name
    ensures NeedsCleaning(NamedUser(name))
  {
    var row := NamedUser(name);
    assert row.text[Username] == Some(name);
    assert FieldChanges(row, Username);
    assert TextFields[FieldIndex(Username)] == Username;
  }

  lemma ZoNamesMerge()
    ensures Sanitize("Zo\U{EB}") == "Zo?" && Sanitize("Zo\U{E9}") == "Zo?"
  {
    assert "Zo" + "\U{EB}" + "" == "Zo\U{EB}";
    assert "Zo" + "\U{E9}" + "" == "Zo\U{E9}";
    RunCollapses("Zo", "\U{EB}", "");
    RunCollapses("Zo", "\U{E9}", "");
    assert Sanitize("") == "";
    assert "Zo" + "?" + "" == "Zo?";
  }

  /**
   * Two distinct usernames that clean to the same name: the first user is
   * saved, the second user's save is refused and the run stops there.
   */
  lemma MergedUsernamesAbort(a: string, b: string)
    requires a != "" && b != ""
    requires Sanitize(a) == Sanitize(b) && Sanitize(a) != a && Sanitize(b) != b
    ensures FirstRefusal([NamedUser(a), NamedUser(b)]) == Some(1)
  {
    var rows := [NamedUser(a), NamedUser(b)];
    CleanNamedUser(a);
    CleanNamedUser(b);
    NamedUserNeedsCleaning(a);
    NamedUserNeedsCleaning(b);
    assert !SaveRefused(rows, 0) by {
      assert StateAt(rows, 0) == rows by { assert rows[..0] == []; }
      assert UsernameOf(rows[1]) == Some(b);
    }
    assert SaveRefused(rows, 1) by {
      assert rows[..1] == [rows[0]];
      assert StateAt(rows, 1)[0] == CleanRow(rows[0]);
    }
    assert FirstRefusalFrom(rows, 1) == Some(1);
    assert FirstRefusalFrom(rows, 0) == FirstRefusalFrom(rows, 1);
  }

  /** "Zoë" and "Zoé" both clean to "Zo?", so a table holding both users never finishes cleaning. */
  lemma ZoUsersAbort()
    ensures FirstRefusal([NamedUser("Zo\U{EB}"), NamedUser("Zo\U{E9}")]) == Some(1)
  {
    ZoNamesMerge();
    MergedUsernamesAbort("Zo\U{EB}", "Zo\U{E9}");
  }
}
