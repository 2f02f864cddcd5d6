/**
 * The account models: roles, permissions, the custom user with its
 * account status and its generated `STAFFnnnn` identifier, and one-time
 * passwords with their five-minute lifetime.
 */
module ApiModels {
  import opened Wrappers
  import opened Text

  type UserId = nat
  type Timestamp = int

  datatype Permission = Permission(id: nat, name: string, codename: string)

  /** A role row; views test its `name` against fixed strings such as "Admin" or "Superadmin". */
  datatype Role = Role(id: nat, name: string, permissions: set<nat>)

  /**
   * The columns of `CustomUser` the core reads or writes. `password` stands
   * for the stored password hash; `extraPermissions` holds permission ids.
   */
  datatype User = User(
    id: UserId,
    username: string,
    email: Option<string>,
    role: Option<Role>,
    status: string,
    isStaff: bool,
    isActive: bool,
    supervisor: Option<UserId>,
    staffId: Option<string>,
    extraPermissions: set<nat>,
    password: Option<string>)
  {
    /** `user.role.name` when the user has a role. */
    function RoleName(): Option<string> {
      if role.Some? then Some(role.value.name) else None
    }

    predicate HasRole(name: string) {
      role.Some? && role.value.name == name
    }
  }

  // ---------------------------------------------------------------------
  // Account status

  const StatusChoices: set<string> := {"Active", "Pending", "Suspended"}

  /** A user created without a status is "Active". */
  const DefaultUserStatus: string := "Active"

  lemma DefaultUserStatusIsChoice()
    ensures DefaultUserStatus in StatusChoices
  {
  }

  // ---------------------------------------------------------------------
  // Staff identifiers

  const StaffPrefix: string := "STAFF"

  /** `f"STAFF{n:04d}"`. */
  function FormatStaffId(n: nat): (s: string)
    ensures StartsWith(s, StaffPrefix) && |s| >= |StaffPrefix| + 4
  {
    StaffPrefix + FormatInt(n, 4)
  }

  /** `int(staff_id.replace('STAFF', ''))`, with `None` where `int()` raises `ValueError`. */
  function ParseStaffNumber(s: string): Option<nat> {
    ParseNat(RemoveAll(s, StaffPrefix))
  }

  /** Every generated identifier reads back as the number it was made from. */
  lemma StaffIdRoundTrip(n: nat)
    ensures ParseStaffNumber(FormatStaffId(n)) == Some(n)
  {
    var digits := FormatInt(n, 4);
    FormatIntValue(n, 4);
    RemoveAllLeading(StaffPrefix, digits);
    assert forall i :: 0 <= i < |digits| ==> digits[i] != StaffPrefix[0] by {
      forall i | 0 <= i < |digits| ensures digits[i] != StaffPrefix[0] {
        assert IsDigit(digits[i]);
      }
    }
    RemoveAllAbsent(digits, StaffPrefix);
  }

  /** Distinct numbers give distinct identifiers. */
  lemma StaffIdInjective(m: nat, n: nat)
    requires FormatStaffId(m) == FormatStaffId(n)
    ensures m == n
  {
    StaffIdRoundTrip(m);
    StaffIdRoundTrip(n);
  }

  /**
   * `filter(staff_id__isnull=False).order_by('-id').first()`: the staff id of
   * the user with the greatest id among those whose staff id is not NULL.
   * The table is in increasing id order.
   */
  function LastStaffId(users: seq<User>): (r: Option<string>)
    ensures r.None? <==> forall i :: 0 <= i < |users| ==> users[i].staffId.None?
    ensures r.Some? ==>
      exists i :: 0 <= i < |users| && users[i].staffId == r && (forall j :: i < j < |users| ==> users[j].staffId.None?)
  {
    if users == [] then None
    else if users[|users| - 1].staffId.Some? then users[|users| - 1].staffId
    else
      var r := LastStaffId(users[..|users| - 1]);
      assert forall i :: 0 <= i < |users| - 1 ==> users[..|users| - 1][i] == users[i];
      r
  }

  /** The number for a new identifier: one more than the last one, or 1 when there is none or it does not parse. */
  function NextStaffNumber(last: Option<string>): (n: nat)
    ensures n >= 1
    ensures last.Some? && last.value != "" && ParseStaffNumber(last.value).Some? ==>
      n == ParseStaffNumber(last.value).value + 1
    ensures last.None? || last == Some("") || ParseStaffNumber(last.value).None? ==> n == 1
  {
    if last.None? || last.value == "" then 1
    else match ParseStaffNumber(last.value)
      case Some(k) => k + 1
      case None => 1
  }

  /** `CustomUser.save`: a user whose staff id is NULL or empty gets the next generated one. */
  function AssignStaffId(users: seq<User>, u: User): (r: User)
    ensures u.staffId.Some? && u.staffId.value != "" ==> r == u
    ensures u.staffId.None? || u.staffId == Some("") ==>
      r == u.(staffId := Some(FormatStaffId(NextStaffNumber(LastStaffId(users)))))
  {
    if u.staffId.None? || u.staffId.value == "" then
      u.(staffId := Some(FormatStaffId(NextStaffNumber(LastStaffId(users)))))
    else u
  }

  /**
   * Identifiers are handed out consecutively: after the last generated
   * identifier `STAFFn`, the next user saved without one gets `STAFF(n+1)`.
   */
  lemma NextAfterGenerated(users: seq<User>, n: nat, u: User)
    requires LastStaffId(users) == Some(FormatStaffId(n))
    requires u.staffId.None?
    ensures AssignStaffId(users, u).staffId == Some(FormatStaffId(n + 1))
  {
    var last := FormatStaffId(n);
    StaffIdRoundTrip(n);
    assert last != "";
    assert NextStaffNumber(Some(last)) == n + 1;
  }

  /** A saved user has a staff id, so saving it again, against any table, changes nothing. */
  lemma SavedAgainUnchanged(users: seq<User>, later: seq<User>, u: User)
    ensures var saved := AssignStaffId(users, u);
      saved.staffId.Some? && saved.staffId.value != "" && AssignStaffId(later, saved) == saved
  {
    if u.staffId.None? || u.staffId == Some("") {
      assert |FormatStaffId(NextStaffNumber(LastStaffId(users)))| >= 9;
    }
  }

  /** Saving two new users one after the other gives them consecutive numbers. */
  lemma ConsecutiveSaves(users: seq<User>, u: User, v: User)
    requires u.staffId.None? && v.staffId.None?
    ensures var first := AssignStaffId(users, u);
      var second := AssignStaffId(users + [first], v);
      exists n: nat :: first.staffId == Some(FormatStaffId(n)) && second.staffId == Some(FormatStaffId(n + 1))
  {
    var first := AssignStaffId(users, u);
    var n := NextStaffNumber(LastStaffId(users));
    assert LastStaffId(users + [first]) == Some(FormatStaffId(n));
    NextAfterGenerated(users + [first], n, v);
  }

  /** The user table, in increasing id order; a user's id is its position. */
  class UserStore {
    var users: seq<User>

    ghost predicate Valid()
      reads this
    {
      forall i :: 0 <= i < |users| ==> users[i].id == i
    }

    constructor ()
      ensures Valid() && users == []
    {
      users := [];
    }

    /** `CustomUser.save`: generate the staff id if needed, then insert or update the row. */
    method Save(u: User) returns (saved: User)
      requires Valid()
      requires u.id <= |users|
      modifies this
      ensures Valid()
      ensures saved == AssignStaffId(old(users), u)
      ensures u.id < |old(users)| ==> users == old(users)[u.id := saved]
      ensures u.id == |old(users)| ==> users == old(users) + [saved]
    {
      saved := AssignStaffId(users, u);
      if u.id < |users| {
        users := users[u.id := saved];
      } else {
        users := users + [saved];
      }
    }
  }

  // ---------------------------------------------------------------------
  // One-time passwords

  /** A stored OTP row. */
  datatype Otp = Otp(user: UserId, code: string, createdAt: Timestamp, expiresAt: Timestamp)

  /** Five minutes, in seconds. */
  const OtpLifetime: int := 300

  /** `OTP.save` on a new row: an expiry that was not given becomes five minutes after now. */
  function SaveOtp(user: UserId, code: string, now: Timestamp, expiresAt: Option<Timestamp>): (o: Otp)
    ensures o.user == user && o.code == code && o.createdAt == now
    ensures o.expiresAt == if expiresAt.Some? then expiresAt.value else now + OtpLifetime
  {
    Otp(user, code, now, expiresAt.GetOr(now + OtpLifetime))
  }

  /** `OTP.is_valid`: the expiry instant itself still counts as valid. */
  predicate OtpIsValid(o: Otp, now: Timestamp) {
    now <= o.expiresAt
  }

  /** An OTP saved without an expiry at time `t` is valid exactly until `t` plus five minutes, inclusive. */
  lemma FreshOtpWindow(user: UserId, code: string, t: Timestamp, now: Timestamp)
    ensures OtpIsValid(SaveOtp(user, code, t, None), now) <==> now <= t + 300
  {
  }
}
