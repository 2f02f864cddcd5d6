/**
 * The account views: assigning extra permissions, listing role
 * permissions, verifying a one-time password, and the two password views.
 */
module ApiViews {
  import opened Wrappers
  import opened ApiModels
  import opened ApiSerializers

  // ---------------------------------------------------------------------
  // Assigning permissions

  /** `Permission.objects.filter(codename__in=codes)`, as the ids `extra_permissions.set` stores. */
  function PermissionIdsFor(perms: seq<Permission>, codes: seq<string>): (r: set<nat>)
    ensures forall k :: 0 <= k < |perms| && perms[k].codename in codes ==> perms[k].id in r
    ensures forall id :: id in r ==> exists k :: 0 <= k < |perms| && perms[k].id == id && perms[k].codename in codes
  {
    set k | 0 <= k < |perms| && perms[k].codename in codes :: perms[k].id
  }

  /** Unknown codes add nothing: a list of only unknown codes clears the extra permissions. */
  lemma UnknownCodesDropped(perms: seq<Permission>, codes: seq<string>)
    requires forall k :: 0 <= k < |perms| ==> perms[k].codename !in codes
    ensures PermissionIdsFor(perms, codes) == {}
  {
  }

  /** Only the order and repetition of the codes do not matter. */
  lemma CodesAsSet(perms: seq<Permission>, a: seq<string>, b: seq<string>)
    requires forall c :: c in a <==> c in b
    ensures PermissionIdsFor(perms, a) == PermissionIdsFor(perms, b)
  {
  }

  /**
   * `AssignPermissionView.post`: a requester without a role makes the view
   * raise (500); only the role named exactly "Superadmin" may assign (403
   * otherwise); an unknown user is 404; otherwise the user's extra
   * permissions become exactly the known codes' permissions, and the user is saved.
   */
  method AssignPermissions(store: UserStore, perms: seq<Permission>, requester: User, userId: int, codes: seq<string>)
    returns (code: int)
    requires store.Valid()
    modifies store
    ensures store.Valid()
    ensures requester.role.None? ==> code == 500
    ensures requester.role.Some? && requester.role.value.name != "Superadmin" ==> code == 403
    ensures requester.HasRole("Superadmin") && !(0 <= userId < |old(store.users)|) ==> code == 404
    ensures code == 200 <==> requester.HasRole("Superadmin") && 0 <= userId < |old(store.users)|
    ensures code != 200 ==> store.users == old(store.users)
    ensures code == 200 ==> (store.users ==
      old(store.users)[userId := AssignStaffId(old(store.users), old(store.users)[userId].(extraPermissions := PermissionIdsFor(perms, codes)))])
  {
    if requester.role.None? {
      return 500;
    }
    if requester.role.value.name != "Superadmin" {
      return 403;
    }
    if !(0 <= userId < |store.users|) {
      return 404;
    }
    var user := store.users[userId];
    user := user.(extraPermissions := PermissionIdsFor(perms, codes));
    var saved := store.Save(user);
    return 200;
  }

  /** Assigning the same codes twice leaves what assigning them once does. */
  lemma AssignTwiceSameAsOnce(users: seq<User>, i: nat, perms: seq<Permission>, codes: seq<string>)
    requires i < |users|
    ensures var once := AssignStaffId(users, users[i].(extraPermissions := PermissionIdsFor(perms, codes)));
      var after := users[i := once];
      AssignStaffId(after, after[i].(extraPermissions := PermissionIdsFor(perms, codes))) == once
  {
    var once := AssignStaffId(users, users[i].(extraPermissions := PermissionIdsFor(perms, codes)));
    assert once.staffId.Some? && once.staffId.value != "" by {
      if users[i].staffId.None? || users[i].staffId == Some("") {
        assert |FormatStaffId(NextStaffNumber(LastStaffId(users)))| >= 9;
      }
    }
  }

  // ---------------------------------------------------------------------
  // Listing role permissions

  datatype PermissionEntry = PermissionEntry(code: string, displayLabel: string)

  /** The positions in the permission table of a role's permissions, in table order. */
  function RoleIndices(perms: seq<Permission>, role: Role): (r: seq<nat>)
    ensures forall k :: 0 <= k < |r| ==> r[k] < |perms| && perms[r[k]].id in role.permissions
    ensures forall k, l :: 0 <= k < l < |r| ==> r[k] < r[l]
    decreases |perms|
  {
    if perms == [] then []
    else
      var init := RoleIndices(perms[..|perms| - 1], role);
      assert forall j :: 0 <= j < |perms| - 1 ==> perms[..|perms| - 1][j] == perms[j];
      init + (if perms[|perms| - 1].id in role.permissions then [|perms| - 1] else [])
  }

  /** No permission of the role is skipped. */
  lemma {:induction false} RoleIndicesComplete(perms: seq<Permission>, role: Role, j: nat)
    requires j < |perms| && perms[j].id in role.permissions
    ensures j in RoleIndices(perms, role)
    decreases |perms|
  {
    var init := perms[..|perms| - 1];
    if j < |perms| - 1 {
      assert init[j] == perms[j];
      RoleIndicesComplete(init, role, j);
    }
  }

  function EntryFor(p: Permission): PermissionEntry {
    PermissionEntry(p.codename, p.name)
  }

  /**
   * `[{"code": p.codename, "label": p.name} for p in role.permissions.all()]`:
   * one entry per permission of the role, in the permission table's order.
   */
  function EntriesOf(perms: seq<Permission>, role: Role): (r: seq<PermissionEntry>)
    ensures |r| == |RoleIndices(perms, role)|
    ensures forall k :: 0 <= k < |r| ==> r[k] == EntryFor(perms[RoleIndices(perms, role)[k]])
    decreases |perms|
  {
    if perms == [] then []
    else
      var init := EntriesOf(perms[..|perms| - 1], role);
      var last := perms[|perms| - 1];
      assert forall j :: 0 <= j < |perms| - 1 ==> perms[..|perms| - 1][j] == perms[j];
      init + (if last.id in role.permissions then [EntryFor(last)] else [])
  }

  /** `e` lists one of the role's permissions. */
  predicate IsRoleEntry(perms: seq<Permission>, role: Role, e: PermissionEntry) {
    exists j :: 0 <= j < |perms| && perms[j].id in role.permissions && e == EntryFor(perms[j])
  }

  /** Every entry is one of the role's permissions, and every permission of the role has its entry. */
  lemma EntriesOfMeaning(perms: seq<Permission>, role: Role)
    ensures var r := EntriesOf(perms, role);
      forall k :: 0 <= k < |r| ==> IsRoleEntry(perms, role, r[k])
    ensures var r := EntriesOf(perms, role);
      forall j :: 0 <= j < |perms| && perms[j].id in role.permissions ==> EntryFor(perms[j]) in r
  {
    var idx := RoleIndices(perms, role);
    var r := EntriesOf(perms, role);
    forall k | 0 <= k < |r|
      ensures IsRoleEntry(perms, role, r[k])
    {
      var j := idx[k];
      assert 0 <= j < |perms| && perms[j].id in role.permissions && r[k] == EntryFor(perms[j]);
    }
    forall j | 0 <= j < |perms| && perms[j].id in role.permissions
      ensures EntryFor(perms[j]) in r
    {
      RoleIndicesComplete(perms, role, j);
      var k :| 0 <= k < |idx| && idx[k] == j;
      assert r[k] == EntryFor(perms[j]);
    }
  }

  /** No later role in the list has the same name as role `k`, so its entry is the one the listing keeps. */
  predicate LastNamed(roles: seq<Role>, k: nat)
    requires k < |roles|
  {
    forall j :: k < j < |roles| ==> roles[j].name != roles[k].name
  }

  /**
   * The response: role name to its permission entries, for the given roles.
   * A later role with the same name overwrites an earlier one, as the
   * dictionary assignment in the loop does.
   */
  function PermissionMap(roles: seq<Role>, perms: seq<Permission>): (r: map<string, seq<PermissionEntry>>)
    ensures r.Keys == set k | 0 <= k < |roles| :: roles[k].name
    decreases |roles|
  {
    if roles == [] then map[]
    else
      var init := PermissionMap(roles[..|roles| - 1], perms);
      var last := roles[|roles| - 1];
      assert forall k :: 0 <= k < |roles| - 1 ==> roles[..|roles| - 1][k] == roles[k];
      assert (set k | 0 <= k < |roles| :: roles[k].name) == (set k | 0 <= k < |roles| - 1 :: roles[k].name) + {last.name};
      init[last.name := EntriesOf(perms, last)]
  }

  /** Each name maps to the entries of the last role with that name. */
  lemma {:induction false} PermissionMapLast(roles: seq<Role>, perms: seq<Permission>, k: nat)
    requires k < |roles| && LastNamed(roles, k)
    ensures PermissionMap(roles, perms)[roles[k].name] == EntriesOf(perms, roles[k])
    decreases |roles|
  {
    var init := roles[..|roles| - 1];
    if k < |roles| - 1 {
      assert roles[k] == init[k];
      assert roles[k].name != roles[|roles| - 1].name;
      assert LastNamed(init, k) by {
        forall j | k < j < |init| ensures init[j].name != init[k].name {
          assert init[j] == roles[j];
        }
      }
      PermissionMapLast(init, perms, k);
    }
  }

  /** Each key of the listing comes from some role, with that role's entries. */
  lemma {:induction false} PermissionMapFrom(roles: seq<Role>, perms: seq<Permission>, n: string)
    requires n in PermissionMap(roles, perms)
    ensures exists k :: 0 <= k < |roles| && roles[k].name == n && PermissionMap(roles, perms)[n] == EntriesOf(perms, roles[k])
    decreases |roles|
  {
    var init := roles[..|roles| - 1];
    var last := roles[|roles| - 1];
    if n == last.name {
      assert PermissionMap(roles, perms)[n] == EntriesOf(perms, last);
    } else {
      assert PermissionMap(roles, perms)[n] == PermissionMap(init, perms)[n];
      PermissionMapFrom(init, perms, n);
      var k :| 0 <= k < |init| && init[k].name == n && PermissionMap(init, perms)[n] == EntriesOf(perms, init[k]);
      assert roles[k] == init[k];
    }
  }

  /** Role names are unique in the table, so every role gets its own entries. */
  lemma UniqueNamesListed(roles: seq<Role>, perms: seq<Permission>)
    requires forall i, j :: 0 <= i < j < |roles| ==> roles[i].name != roles[j].name
    ensures forall k :: 0 <= k < |roles| ==> PermissionMap(roles, perms)[roles[k].name] == EntriesOf(perms, roles[k])
  {
    forall k | 0 <= k < |roles|
      ensures PermissionMap(roles, perms)[roles[k].name] == EntriesOf(perms, roles[k])
    {
      PermissionMapLast(roles, perms, k);
    }
  }

  /** The roles a requester's own-role query returns: those with the requester's role id. */
  function OwnRole(roles: seq<Role>, role: Role): (r: seq<Role>)
    ensures forall k :: 0 <= k < |r| ==> r[k].id == role.id
    decreases |roles|
  {
    if roles == [] then []
    else OwnRole(roles[..|roles| - 1], role) + (if roles[|roles| - 1].id == role.id then [roles[|roles| - 1]] else [])
  }

  lemma {:induction false} OwnRoleFinds(roles: seq<Role>, role: Role, k: nat)
    requires k < |roles| && roles[k].id == role.id
    ensures roles[k] in OwnRole(roles, role)
    decreases |roles|
  {
    if k < |roles| - 1 {
      OwnRoleFinds(roles[..|roles| - 1], role, k);
    }
  }

  /**
   * `ListPermissionsView.get` as written: no role is 403; the role name is
   * compared with the lower-case "superadmin", and every other role sees
   * only its own role's permissions.
   */
  function ListPermissionsAsWritten(roles: seq<Role>, perms: seq<Permission>, requester: User): Result<map<string, seq<PermissionEntry>>, int> {
    if requester.role.None? then Failure(403)
    else if requester.role.value.name == "superadmin" then Success(PermissionMap(roles, perms))
    else Success(PermissionMap(OwnRole(roles, requester.role.value), perms))
  }

  /** As written, the role every other view calls "Superadmin" sees only its own entry, not the other roles'. */
  lemma SuperadminSeesOwnRoleAsWritten()
    ensures var superadmin := Role(1, "Superadmin", {});
      var admin := Role(2, "Admin", {10});
      var requester := User(1, "root", None, Some(superadmin), "Active", true, true, None, None, {}, None);
      var r := ListPermissionsAsWritten([superadmin, admin], [Permission(10, "View users", "view_users")], requester);
      r.Success? && "Admin" !in r.value && r.value.Keys == {"Superadmin"}
  {
    var superadmin := Role(1, "Superadmin", {});
    var admin := Role(2, "Admin", {10});
    var roles := [superadmin, admin];
    assert roles[..1] == [superadmin] && [superadmin][..0] == [];
    assert OwnRole([superadmin], superadmin) == OwnRole([], superadmin) + [superadmin];
    assert OwnRole(roles, superadmin) == OwnRole([superadmin], superadmin);
    assert (set k | 0 <= k < 1 :: [superadmin][k].name) == {"Superadmin"};
  }

  /** The listing with the role name spelled as everywhere else. */
  function ListPermissions(roles: seq<Role>, perms: seq<Permission>, requester: User): Result<map<string, seq<PermissionEntry>>, int> {
    if requester.role.None? then Failure(403)
    else if requester.role.value.name == "Superadmin" then Success(PermissionMap(roles, perms))
    else Success(PermissionMap(OwnRole(roles, requester.role.value), perms))
  }

  /**
   * A Superadmin sees every role, each name with its role's permissions;
   * anyone else with a role sees only roles with their own role's id
   * (their own, when it is in the table), with that role's permissions;
   * no role is 403.
   */
  lemma ListPermissionsMeaning(roles: seq<Role>, perms: seq<Permission>, requester: User)
    ensures requester.role.None? <==> ListPermissions(roles, perms, requester) == Failure(403)
    ensures requester.HasRole("Superadmin") ==>
      var r := ListPermissions(roles, perms, requester).value;
      r.Keys == (set k | 0 <= k < |roles| :: roles[k].name)
      && forall k :: 0 <= k < |roles| && LastNamed(roles, k) ==> r[roles[k].name] == EntriesOf(perms, roles[k])
    ensures requester.role.Some? && !requester.HasRole("Superadmin") ==>
      var r := ListPermissions(roles, perms, requester).value;
      (forall n :: n in r ==> exists k :: 0 <= k < |roles| && roles[k].id == requester.role.value.id && roles[k].name == n
                                          && r[n] == EntriesOf(perms, roles[k]))
      && (forall k :: 0 <= k < |roles| && roles[k].id == requester.role.value.id ==> roles[k].name in r)
  {
    if requester.HasRole("Superadmin") {
      forall k | 0 <= k < |roles| && LastNamed(roles, k)
        ensures PermissionMap(roles, perms)[roles[k].name] == EntriesOf(perms, roles[k])
      {
        PermissionMapLast(roles, perms, k);
      }
    } else if requester.role.Some? {
      var own := OwnRole(roles, requester.role.value);
      var r := ListPermissions(roles, perms, requester).value;
      assert r == PermissionMap(own, perms);
      forall k | 0 <= k < |roles| && roles[k].id == requester.role.value.id
        ensures roles[k].name in r
      {
        OwnRoleFinds(roles, requester.role.value, k);
        var j :| 0 <= j < |own| && own[j] == roles[k];
      }
      OwnRoleWithin(roles, requester.role.value);
      forall n | n in r
        ensures exists k :: 0 <= k < |roles| && roles[k].id == requester.role.value.id && roles[k].name == n
                            && r[n] == EntriesOf(perms, roles[k])
      {
        PermissionMapFrom(own, perms, n);
        var j :| 0 <= j < |own| && own[j].name == n && r[n] == EntriesOf(perms, own[j]);
        assert own[j] in roles;
        var k :| 0 <= k < |roles| && roles[k] == own[j];
      }
    }
  }

  lemma {:induction false} OwnRoleWithin(roles: seq<Role>, role: Role)
    ensures forall k :: 0 <= k < |OwnRole(roles, role)| ==> OwnRole(roles, role)[k] in roles
    decreases |roles|
  {
    if roles != [] {
      OwnRoleWithin(roles[..|roles| - 1], role);
      forall r | r in roles[..|roles| - 1] ensures r in roles {
        var k :| 0 <= k < |roles| - 1 && roles[..|roles| - 1][k] == r;
        assert roles[k] == r;
      }
    }
  }

  /** The two listings differ only for a role named exactly "Superadmin" or "superadmin". */
  lemma ListingsAgreeOtherwise(roles: seq<Role>, perms: seq<Permission>, requester: User)
    requires !requester.HasRole("Superadmin") && !requester.HasRole("superadmin")
    ensures ListPermissions(roles, perms, requester) == ListPermissionsAsWritten(roles, perms, requester)
  {
  }

  // ---------------------------------------------------------------------
  // Verifying a one-time password

  /** The users with this email address. */
  function UsersWithEmail(users: seq<User>, email: string): (r: seq<User>)
    ensures forall k :: 0 <= k < |r| ==> r[k].email == Some(email)
    decreases |users|
  {
    if users == [] then []
    else UsersWithEmail(users[..|users| - 1], email) + (if users[|users| - 1].email == Some(email) then [users[|users| - 1]] else [])
  }

  /** Position `k` holds an OTP of this user with this code, created no earlier than any other such OTP. */
  predicate IsNewest(otps: seq<Otp>, user: UserId, code: string, k: int) {
    0 <= k < |otps| && otps[k].user == user && otps[k].code == code
    && forall j :: 0 <= j < |otps| && otps[j].user == user && otps[j].code == code ==> otps[j].createdAt <= otps[k].createdAt
  }

  /**
   * `filter(user=user, code=code).order_by('-created_at').first()`. Among
   * OTPs created at the same instant the database may return any; the
   * model takes the latest-stored one.
   */
  function NewestOtp(otps: seq<Otp>, user: UserId, code: string): (r: Option<nat>)
    ensures r.Some? ==> IsNewest(otps, user, code, r.value)
    ensures r.None? ==> forall j :: 0 <= j < |otps| ==> !(otps[j].user == user && otps[j].code == code)
    decreases |otps|
  {
    if otps == [] then None
    else
      var init := otps[..|otps| - 1];
      var last := otps[|otps| - 1];
      var r := NewestOtp(init, user, code);
      assert forall j :: 0 <= j < |init| ==> init[j] == otps[j];
      if last.user == user && last.code == code && (r.None? || init[r.value].createdAt <= last.createdAt) then Some(|otps| - 1)
      else r
  }

  /** The OTP table. */
  class OtpStore {
    var otps: seq<Otp>

    constructor ()
      ensures otps == []
    {
      otps := [];
    }

    /**
     * `VerifyOTPView.post`: no user with the email is 400, several make
     * `get` raise (500); then the newest OTP of that user with that code
     * must exist and still be valid, and exactly it is deleted (200);
     * otherwise 400 and the table stays as it was.
     */
    method VerifyOtp(users: seq<User>, email: string, code: string, now: Timestamp) returns (status: int)
      modifies this
      ensures |UsersWithEmail(users, email)| == 0 ==> status == 400
      ensures |UsersWithEmail(users, email)| > 1 ==> status == 500
      ensures status == 200 <==> (|UsersWithEmail(users, email)| == 1 &&
        var k := NewestOtp(old(otps), UsersWithEmail(users, email)[0].id, code);
        k.Some? && OtpIsValid(old(otps)[k.value], now))
      ensures status != 200 ==> otps == old(otps)
      ensures status == 200 ==> exists k :: IsNewest(old(otps), UsersWithEmail(users, email)[0].id, code, k) && OtpIsValid(old(otps)[k], now) && otps == old(otps)[..k] + old(otps)[k + 1..]
    {
      var matching := UsersWithEmail(users, email);
      if |matching| == 0 {
        return 400;
      }
      if |matching| > 1 {
        return 500;
      }
      var user := matching[0];
      var found := NewestOtp(otps, user.id, code);
      if found.Some? && OtpIsValid(otps[found.value], now) {
        var k := found.value;
        otps := otps[..k] + otps[k + 1..];
        return 200;
      }
      return 400;
    }
  }

  /** A successful verification removes exactly one OTP, the one verified. */
  lemma DeleteRemovesOne(otps: seq<Otp>, k: nat)
    requires k < |otps|
    ensures multiset(otps[..k] + otps[k + 1..]) + multiset{otps[k]} == multiset(otps)
    ensures |otps[..k] + otps[k + 1..]| == |otps| - 1
  {
    assert otps == otps[..k] + [otps[k]] + otps[k + 1..];
  }

  /** An OTP saved without an expiry verifies up to five minutes later, boundary included, and not after. */
  lemma FreshOtpVerifies(otps: seq<Otp>, user: UserId, code: string, t: Timestamp, now: Timestamp)
    requires forall j :: 0 <= j < |otps| ==> otps[j].createdAt < t
    ensures var all := otps + [SaveOtp(user, code, t, None)];
      NewestOtp(all, user, code) == Some(|otps|)
      && (OtpIsValid(all[|otps|], now) <==> now <= t + OtpLifetime)
  {
    var all := otps + [SaveOtp(user, code, t, None)];
    assert all[..|otps|] == otps;
    var r := NewestOtp(otps, user, code);
  }

  // ---------------------------------------------------------------------
  // Passwords

  const AllFieldsRequired: string := "All fields are required"
  const OldPasswordIncorrect: string := "Old password is incorrect"
  const PasswordsDoNotMatch: string := "New password and confirm password do not match"

  predicate Given(v: Option<string>) {
    v.Some? && v.value != ""
  }

  /**
   * The checks of `UpdatePasswordView.post`, in order. `oldMatches` is what
   * `check_password(old_password, user.password)` answers and
   * `validatorErrors` what Django's password validators report; both are
   * foreign code.
   */
  function PasswordUpdateCheck(oldPassword: Option<string>, newPassword: Option<string>, confirmPassword: Option<string>,
                               oldMatches: bool, validatorErrors: seq<string>): (r: Result<string, seq<string>>)
    ensures r.Success? <==> Given(oldPassword) && Given(newPassword) && Given(confirmPassword) && oldMatches
                            && newPassword == confirmPassword && validatorErrors == []
    ensures r.Success? ==> r.value == newPassword.value
  {
    if !Given(oldPassword) || !Given(newPassword) || !Given(confirmPassword) then Failure([AllFieldsRequired])
    else if !oldMatches then Failure([OldPasswordIncorrect])
    else if newPassword.value != confirmPassword.value then Failure([PasswordsDoNotMatch])
    else if validatorErrors != [] then Failure(validatorErrors)
    else Success(newPassword.value)
  }

  /** Each check reports its own error whatever the later checks would say. */
  lemma PasswordCheckOrder(oldPassword: Option<string>, newPassword: Option<string>, confirmPassword: Option<string>,
                           oldMatches: bool, validatorErrors: seq<string>)
    ensures var r := PasswordUpdateCheck(oldPassword, newPassword, confirmPassword, oldMatches, validatorErrors);
      (!Given(oldPassword) || !Given(newPassword) || !Given(confirmPassword) ==> r == Failure([AllFieldsRequired]))
      && (Given(oldPassword) && Given(newPassword) && Given(confirmPassword) && !oldMatches ==> r == Failure([OldPasswordIncorrect]))
      && (Given(oldPassword) && Given(newPassword) && Given(confirmPassword) && oldMatches && newPassword != confirmPassword ==>
            r == Failure([PasswordsDoNotMatch]))
      && ((Given(oldPassword) && Given(newPassword) && Given(confirmPassword) && oldMatches && newPassword == confirmPassword
            && validatorErrors != []) ==> r == Failure(validatorErrors))
  {
  }

  /**
   * `UpdatePasswordView.post`: the password changes, to the hash `newHash`
   * of the new password, only when every check passes; otherwise nothing changes.
   */
  method UpdatePassword(store: UserStore, userId: UserId, oldPassword: Option<string>, newPassword: Option<string>,
                        confirmPassword: Option<string>, oldMatches: bool, validatorErrors: seq<string>, newHash: string)
    returns (code: int, errors: seq<string>)
    requires store.Valid() && userId < |store.users|
    modifies store
    ensures store.Valid()
    ensures var r := PasswordUpdateCheck(oldPassword, newPassword, confirmPassword, oldMatches, validatorErrors);
      (r.Success? ==> code == 200 && errors == []) && (r.Failure? ==> code == 400 && errors == r.error)
    ensures code != 200 ==> store.users == old(store.users)
    ensures code == 200 ==> store.users == old(store.users)[userId := AssignStaffId(old(store.users), old(store.users)[userId].(password := Some(newHash)))]
  {
    var check := PasswordUpdateCheck(oldPassword, newPassword, confirmPassword, oldMatches, validatorErrors);
    if check.Failure? {
      return 400, check.error;
    }
    var user := store.users[userId].(password := Some(newHash));
    var saved := store.Save(user);
    return 200, [];
  }

  /**
   * `SetNewPasswordView.post`: an unknown user is 404 (before validation);
   * then the two passwords must match and pass the validators (400);
   * otherwise the password becomes `newHash`.
   */
  method SetNewPassword(store: UserStore, userId: int, newPassword: string, confirmPassword: string,
                        validatorErrors: seq<string>, newHash: string) returns (code: int)
    requires store.Valid()
    modifies store
    ensures store.Valid()
    ensures !(0 <= userId < |old(store.users)|) ==> code == 404
    ensures code == 200 <==> 0 <= userId < |old(store.users)| && ValidateNewPassword(newPassword, confirmPassword).Success? && validatorErrors == []
    ensures code != 200 ==> store.users == old(store.users)
    ensures code == 200 ==> store.users == old(store.users)[userId := AssignStaffId(old(store.users), old(store.users)[userId].(password := Some(newHash)))]
  {
    if !(0 <= userId < |store.users|) {
      return 404;
    }
    if validatorErrors != [] || ValidateNewPassword(newPassword, confirmPassword).Failure? {
      return 400;
    }
    var user := store.users[userId].(password := Some(newHash));
    var saved := store.Save(user);
    return 200;
  }
}
