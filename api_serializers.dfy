/**
 * The account serializers: field validators for registration, the
 * supervisor a new user is given, user updates, certificate and status
 * validation, the login status check and the password-reset match.
 */
module ApiSerializers {
  import opened Wrappers
  import opened Text
  import opened ApiModels

  // ---------------------------------------------------------------------
  // Username

  predicate IsAsciiAlnum(c: char) {
    'a' <= c <= 'z' || 'A' <= c <= 'Z' || '0' <= c <= '9'
  }

  predicate AllAlnum(s: string) {
    forall i :: 0 <= i < |s| ==> IsAsciiAlnum(s[i])
  }

  /**
   * `re.match(r'^[a-zA-Z0-9]+$', s)`. Python's `$` also matches just before
   * a final newline, so one trailing "\n" after the letters and digits is accepted.
   */
  predicate MatchesUsernamePattern(s: string) {
    (|s| > 0 && AllAlnum(s)) || (|s| > 1 && s[|s| - 1] == '\n' && AllAlnum(s[..|s| - 1]))
  }

  predicate UsernameTaken(users: seq<User>, name: string) {
    exists i :: 0 <= i < |users| && users[i].username == name
  }

  const UsernameTakenError: string := "A user with that username already exists."
  const UsernameCharsError: string := "Username can only contain letters and numbers."

  /** `RegisterSerializer.validate_username`: the taken check runs before the pattern check. */
  function ValidateUsername(users: seq<User>, value: string): (r: Result<string, string>)
    ensures r.Success? ==> r.value == value
  {
    if UsernameTaken(users, value) then Failure(UsernameTakenError)
    else if !MatchesUsernamePattern(value) then Failure(UsernameCharsError)
    else Success(value)
  }

  /**
   * On the trimmed text the field hands over (no trailing newline), a
   * username is accepted exactly when it is free, non-empty and made of
   * ASCII letters and digits; a taken name reports the taken error whatever
   * its characters.
   */
  lemma UsernameRule(users: seq<User>, value: string)
    requires value == [] || value[|value| - 1] != '\n'
    ensures ValidateUsername(users, value).Success? <==> !UsernameTaken(users, value) && |value| > 0 && AllAlnum(value)
    ensures UsernameTaken(users, value) ==> ValidateUsername(users, value) == Failure(UsernameTakenError)
  {
  }

  /** The anchor quirk: a free name followed by one newline passes the pattern. */
  lemma TrailingNewlinePasses()
    ensures ValidateUsername([], "ann\n") == Success("ann\n")
  {
    assert "ann\n"[..3] == "ann";
  }

  /** `UserSerializer.validate_username`: taken only by a different user. */
  function ValidateUsernameForUpdate(users: seq<User>, self: UserId, value: string): (r: Result<string, string>)
    ensures r.Success? <==> forall i :: 0 <= i < |users| && users[i].id != self ==> users[i].username != value
    ensures r.Success? ==> r.value == value
  {
    if exists i :: 0 <= i < |users| && users[i].id != self && users[i].username == value then Failure(UsernameTakenError)
    else Success(value)
  }

  /** `validate_email`: an address already on file is refused. */
  function ValidateEmail(users: seq<User>, value: string): (r: Result<string, string>)
    ensures r.Success? <==> forall i :: 0 <= i < |users| ==> users[i].email != Some(value)
    ensures r.Success? ==> r.value == value
  {
    if exists i :: 0 <= i < |users| && users[i].email == Some(value) then Failure("A user with that email already exists.")
    else Success(value)
  }

  // ---------------------------------------------------------------------
  // Phone

  /** `\+?\d{10,15}`: an optional plus sign, then ten to fifteen ASCII digits. */
  predicate PhoneBody(s: string) {
    var digits := if |s| > 0 && s[0] == '+' then s[1..] else s;
    10 <= |digits| <= 15 && AllDigits(digits)
  }

  /** `re.match(r'^\+?\d{10,15}$', s)`, where `$` also matches before a final newline. */
  predicate MatchesPhonePattern(s: string) {
    PhoneBody(s) || (|s| > 0 && s[|s| - 1] == '\n' && PhoneBody(s[..|s| - 1]))
  }

  /** `validate_phone`: blank or NULL is allowed; anything else must match. */
  function ValidatePhone(value: Option<string>): (r: Result<Option<string>, string>)
    ensures r.Success? ==> r.value == value
    ensures value.None? || value == Some("") ==> r.Success?
  {
    if value.None? || value.value == "" then Success(value)
    else if MatchesPhonePattern(value.value) then Success(value)
    else Failure("Phone number must be 10-15 digits and can start with +.")
  }

  /**
   * An accepted number without a trailing newline is blank, or ten to
   * fifteen digits with at most a leading plus: ten to sixteen characters.
   */
  lemma AcceptedPhoneShape(value: string)
    requires ValidatePhone(Some(value)).Success? && value != ""
    requires value[|value| - 1] != '\n'
    ensures 10 <= |value| <= 16
    ensures forall i :: 0 <= i < |value| ==> IsDigit(value[i]) || (i == 0 && value[i] == '+')
  {
    var digits := if value[0] == '+' then value[1..] else value;
    assert PhoneBody(value);
    forall i | 0 <= i < |value| ensures IsDigit(value[i]) || (i == 0 && value[i] == '+') {
      if value[0] == '+' && i > 0 {
        assert value[i] == digits[i - 1];
      }
    }
  }

  /** Any ten to fifteen digits, with or without a plus, are accepted. */
  lemma DigitsAccepted(digits: string, plus: bool)
    requires 10 <= |digits| <= 15 && AllDigits(digits)
    ensures ValidatePhone(Some(if plus then "+" + digits else digits)).Success?
  {
    if plus {
      assert ("+" + digits)[1..] == digits;
    }
  }

  // ---------------------------------------------------------------------
  // Supervisor

  const SupervisorRoles: set<string> := {"Admin", "Superadmin"}

  /**
   * The `supervisor` field: a primary key among the users whose role is
   * Admin or Superadmin; any other key is refused before the validator runs.
   */
  function ResolveSupervisor(users: seq<User>, pk: Option<int>): (r: Result<Option<User>, string>)
    ensures pk.None? ==> r == Success(None)
    ensures r.Success? && r.value.Some? ==> r.value.value.role.Some? && r.value.value.role.value.name in SupervisorRoles
  {
    if pk.None? then Success(None)
    else if 0 <= pk.value < |users| && users[pk.value].role.Some? && users[pk.value].role.value.name in SupervisorRoles then
      Success(Some(users[pk.value]))
    else Failure("Invalid pk - object does not exist.")
  }

  /**
   * `validate_supervisor`: a supervisor must be an Admin or a Superadmin. A
   * supervisor without a role makes the source raise; that is an error here too.
   */
  function ValidateSupervisor(value: Option<User>): (r: Result<Option<User>, string>)
    ensures r.Success? <==> value.None? || (value.value.role.Some? && value.value.role.value.name in SupervisorRoles)
    ensures r.Success? ==> r.value == value
  {
    if value.None? then Success(value)
    else if value.value.role.None? then Failure("supervisor has no role")
    else if value.value.role.value.name !in SupervisorRoles then Failure("Supervisor must have the role 'Admin' or 'Superadmin'.")
    else Success(value)
  }

  /** The field's own choice of users already satisfies the validator: the check never refuses a resolved key. */
  lemma ResolvedSupervisorPasses(users: seq<User>, pk: Option<int>)
    requires ResolveSupervisor(users, pk).Success?
    ensures ValidateSupervisor(ResolveSupervisor(users, pk).value).Success?
  {
  }

  // ---------------------------------------------------------------------
  // Registration

  /** Position `k` holds the first active user with the role. */
  predicate FirstActiveAt(users: seq<User>, roleName: string, k: int) {
    0 <= k < |users| && users[k].HasRole(roleName) && users[k].status == "Active"
    && forall j :: 0 <= j < k ==> !(users[j].HasRole(roleName) && users[j].status == "Active")
  }

  /** `filter(role__name=name, status='Active').first()`: the active user with that role and the smallest id. */
  function FirstActive(users: seq<User>, roleName: string): (r: Option<UserId>)
    ensures r.Some? ==> exists k :: FirstActiveAt(users, roleName, k) && users[k].id == r.value
    ensures r.None? ==> forall k :: 0 <= k < |users| ==> !(users[k].HasRole(roleName) && users[k].status == "Active")
    decreases |users|
  {
    if users == [] then None
    else if users[0].HasRole(roleName) && users[0].status == "Active" then Some(users[0].id)
    else
      var r := FirstActive(users[1..], roleName);
      assert forall k :: 0 <= k < |users| - 1 ==> users[1..][k] == users[k + 1];
      assert r.Some? ==> exists k :: FirstActiveAt(users, roleName, k) && users[k].id == r.value by {
        if r.Some? {
          var k :| FirstActiveAt(users[1..], roleName, k) && users[1..][k].id == r.value;
          assert FirstActiveAt(users, roleName, k + 1);
        }
      }
      r
  }

  /** A user without the role looked for does not change who is found. */
  lemma {:induction false} FirstActiveSkips(users: seq<User>, u: User, roleName: string)
    requires !u.HasRole(roleName)
    ensures FirstActive(users + [u], roleName) == FirstActive(users, roleName)
    decreases |users|
  {
    if users == [] {
      assert ([] + [u])[1..] == [];
    } else {
      assert (users + [u])[1..] == users[1..] + [u];
      FirstActiveSkips(users[1..], u, roleName);
    }
  }

  const SupervisedRoles: set<string> := {"RBT", "BCBA", "Clients/Parent"}

  /**
   * The supervisor `RegisterSerializer.create` gives a new user with role
   * `role`: a supplied one is kept; otherwise RBTs, BCBAs and clients get the
   * creator if the creator is an Admin, else the first active Admin; an Admin
   * gets the creator if the creator is a Superadmin, else the first active
   * Superadmin; anyone else gets none.
   */
  function ChosenSupervisor(users: seq<User>, role: Option<Role>, supplied: Option<UserId>, creator: User): Option<UserId> {
    if supplied.None? && role.Some? then
      if role.value.name in SupervisedRoles then
        if creator.HasRole("Admin") then Some(creator.id) else FirstActive(users, "Admin")
      else if role.value.name == "Admin" then
        if creator.HasRole("Superadmin") then Some(creator.id) else FirstActive(users, "Superadmin")
      else None
    else supplied
  }

  /** The role a default supervisor must have for a new user with role `roleName`. */
  function SupervisorRoleFor(roleName: string): Option<string> {
    if roleName in SupervisedRoles then Some("Admin") else if roleName == "Admin" then Some("Superadmin") else None
  }

  /**
   * A supplied supervisor is always kept; a user without a role, or with a
   * role other than the supervised ones and Admin, gets no default; a
   * default supervisor is the creator holding the required role, or else
   * the first active user holding it.
   */
  lemma ChosenSupervisorCases(users: seq<User>, role: Option<Role>, supplied: Option<UserId>, creator: User)
    ensures supplied.Some? ==> ChosenSupervisor(users, role, supplied, creator) == supplied
    ensures role.None? ==> ChosenSupervisor(users, role, supplied, creator) == supplied
    ensures supplied.None? && role.Some? && SupervisorRoleFor(role.value.name).None? ==> ChosenSupervisor(users, role, supplied, creator).None?
    ensures var s := ChosenSupervisor(users, role, supplied, creator);
      supplied.None? && role.Some? && SupervisorRoleFor(role.value.name).Some? ==>
        var needed := SupervisorRoleFor(role.value.name).value;
        (creator.HasRole(needed) ==> s == Some(creator.id))
        && (!creator.HasRole(needed) && s.Some? ==> exists k :: FirstActiveAt(users, needed, k) && users[k].id == s.value)
        && (!creator.HasRole(needed) && s.None? ==> forall k :: 0 <= k < |users| ==> !(users[k].HasRole(needed) && users[k].status == "Active"))
  {
  }

  /**
   * The row `CustomUser.objects.create(**validated_data)` inserts: no
   * supervisor yet, not staff, no usable password. Status, `is_active`
   * and the extra permissions are not among the serializer's fields, so
   * they take the model defaults whatever the request sent.
   */
  function CreatedRow(fields: User, id: UserId): User {
    fields.(id := id, isStaff := false, supervisor := None, password := None,
            status := "Active", isActive := true, extraPermissions := {})
  }

  /**
   * `RegisterSerializer.create`: insert the user (which generates its staff
   * id), set the password, make it staff, pick the supervisor, save again.
   * `passwordHash` stands for what `set_password` stores.
   */
  method Register(store: UserStore, fields: User, passwordHash: string, supervisor: Option<UserId>, creator: User)
    returns (user: User)
    requires store.Valid()
    modifies store
    ensures store.Valid()
    ensures store.users == old(store.users) + [user]
    ensures user == AssignStaffId(old(store.users), CreatedRow(fields, |old(store.users)|)).(
      isStaff := true, password := Some(passwordHash),
      supervisor := ChosenSupervisor(old(store.users), fields.role, supervisor, creator))
    ensures user.id == |old(store.users)| && user.username == fields.username && user.email == fields.email
    ensures user.role == fields.role && user.status == "Active" && user.isActive && user.extraPermissions == {}
  {
    var created := store.Save(CreatedRow(fields, |store.users|));
    ghost var before := store.users[..|store.users| - 1];
    assert before + [created] == store.users;
    user := created.(password := Some(passwordHash));
    user := user.(isStaff := true);
    var chosen := ChosenSupervisor(store.users, user.role, supervisor, creator);
    // The new row itself never has the role the default search looks for.
    if fields.role.Some? && fields.role.value.name in SupervisedRoles {
      FirstActiveSkips(before, created, "Admin");
    } else if fields.role.Some? && fields.role.value.name == "Admin" {
      FirstActiveSkips(before, created, "Superadmin");
    }
    user := user.(supervisor := chosen);
    var saved := store.Save(user);
    assert saved == user;
  }

  // ---------------------------------------------------------------------
  // User update

  /** The columns a `UserSerializer` update may carry; `None` is a key that was not sent. */
  datatype UserUpdate = UserUpdate(
    username: Option<string>,
    email: Option<Option<string>>,
    status: Option<string>,
    isStaff: Option<bool>,
    isActive: Option<bool>,
    supervisor: Option<Option<UserId>>,
    staffId: Option<Option<string>>,
    extraPermissions: Option<set<nat>>,
    password: Option<string>)

  /** `ModelSerializer.update` on the plain columns: each supplied column takes its value. */
  function AssignColumns(u: User, d: UserUpdate): User {
    u.(username := d.username.GetOr(u.username), email := d.email.GetOr(u.email), status := d.status.GetOr(u.status),
       isStaff := d.isStaff.GetOr(u.isStaff), isActive := d.isActive.GetOr(u.isActive),
       supervisor := d.supervisor.GetOr(u.supervisor), staffId := d.staffId.GetOr(u.staffId))
  }

  /**
   * The user `UserSerializer.update` leaves: the columns assigned and saved
   * (a cleared staff id is regenerated by the save), the extra permissions
   * replaced when sent, and the password replaced when a non-empty one is
   * sent; `passwordHash` stands for what `set_password` stores for it.
   */
  function UpdatedUser(users: seq<User>, u: User, d: UserUpdate, passwordHash: string): User {
    var saved := AssignStaffId(users, AssignColumns(u, d));
    var withPerms := if d.extraPermissions.Some? then saved.(extraPermissions := d.extraPermissions.value) else saved;
    if d.password.Some? && d.password.value != "" then withPerms.(password := Some(passwordHash)) else withPerms
  }

  /** What an update changes: exactly the supplied columns; permissions and password only when sent. */
  lemma UpdatedUserMeaning(users: seq<User>, u: User, d: UserUpdate, passwordHash: string)
    requires d.staffId.None? && u.staffId.Some? && u.staffId.value != ""
    ensures var r := UpdatedUser(users, u, d, passwordHash);
      r.id == u.id && r.role == u.role && r.staffId == u.staffId
      && (d.username.Some? ==> r.username == d.username.value) && (d.username.None? ==> r.username == u.username)
      && (d.status.Some? ==> r.status == d.status.value) && (d.status.None? ==> r.status == u.status)
      && (d.extraPermissions.Some? ==> r.extraPermissions == d.extraPermissions.value)
      && (d.extraPermissions.None? ==> r.extraPermissions == u.extraPermissions)
      && (d.password.None? || d.password == Some("") ==> r.password == u.password)
      && (d.password.Some? && d.password != Some("") ==> r.password == Some(passwordHash))
  {
  }

  /** Clearing the staff id in an update makes the save hand out a fresh one. */
  lemma ClearedStaffIdRegenerated(users: seq<User>, u: User, d: UserUpdate, passwordHash: string)
    requires d.staffId == Some(None)
    ensures UpdatedUser(users, u, d, passwordHash).staffId == Some(FormatStaffId(NextStaffNumber(LastStaffId(users))))
  {
  }

  /** `UserSerializer.update` step by step: assign, save, set the permissions, then the password and save again. */
  method UpdateUser(store: UserStore, id: UserId, d: UserUpdate, passwordHash: string) returns (user: User)
    requires store.Valid() && id < |store.users|
    modifies store
    ensures store.Valid()
    ensures user == UpdatedUser(old(store.users), old(store.users)[id], d, passwordHash)
    ensures store.users == old(store.users)[id := user]
  {
    ghost var before := store.users;
    var instance := AssignColumns(store.users[id], d);
    user := store.Save(instance);
    ghost var first := user;
    if d.extraPermissions.Some? {
      user := user.(extraPermissions := d.extraPermissions.value);
      store.users := store.users[id := user];
    }
    if d.password.Some? && d.password.value != "" {
      user := user.(password := Some(passwordHash));
      SavedAgainUnchanged(before, store.users, first.(extraPermissions := user.extraPermissions, password := user.password));
      var saved := store.Save(user);
      assert saved == user;
    }
  }

  // ---------------------------------------------------------------------
  // Certificates, status, login, password reset

  datatype CertificateData = CertificateData(forLifetime: Option<bool>, expirationDate: Option<int>)

  /** `CertificateSerializer.validate`: an expiration date is needed unless the certificate is for life. */
  function ValidateCertificate(d: CertificateData): (r: Result<CertificateData, string>)
    ensures r.Success? <==> d.forLifetime == Some(true) || d.expirationDate.Some?
    ensures r.Success? ==> r.value == d
  {
    if d.forLifetime != Some(true) && d.expirationDate.None? then
      Failure("Expiration date is required if certificate is not for lifetime.")
    else Success(d)
  }

  /** `validate_status` of both `UserSerializer` and `UserStatusSerializer`. */
  function ValidateStatus(value: string): (r: Result<string, string>)
    ensures r.Success? <==> value in StatusChoices
    ensures r.Success? ==> r.value == value
  {
    if value in StatusChoices then Success(value) else Failure("Invalid status")
  }

  /** Exactly the three statuses are accepted; case matters. */
  lemma StatusChoicesExact()
    ensures ValidateStatus("Active").Success? && ValidateStatus("Pending").Success? && ValidateStatus("Suspended").Success?
    ensures ValidateStatus("active").Failure? && ValidateStatus("").Failure?
  {
  }

  datatype TokenClaims = TokenClaims(userId: UserId, username: string, role: Option<string>)

  /**
   * `MyTokenObtainPairSerializer.validate`: `authenticated` is the user the
   * default credential check found (`None` when it fails); tokens are issued
   * only to an account whose status is exactly "Active".
   */
  function ValidateLogin(authenticated: Option<User>): (r: Result<TokenClaims, string>)
    ensures r.Success? <==> authenticated.Some? && authenticated.value.status == "Active"
    ensures r.Success? ==> r.value == TokenClaims(authenticated.value.id, authenticated.value.username, authenticated.value.RoleName())
  {
    if authenticated.None? then Failure("No active account found with the given credentials")
    else if authenticated.value.status != "Active" then Failure("Your account is not active. Please contact admin.")
    else Success(TokenClaims(authenticated.value.id, authenticated.value.username, authenticated.value.RoleName()))
  }

  /** A pending or suspended account never gets a token. */
  lemma InactiveStatusRefused(u: User)
    requires u.status in StatusChoices - {"Active"}
    ensures ValidateLogin(Some(u)).Failure?
  {
  }

  /** `SetNewPasswordSerializer.validate`: the two passwords must be equal. */
  function ValidateNewPassword(newPassword: string, confirmPassword: string): (r: Result<string, string>)
    ensures r.Success? <==> newPassword == confirmPassword
    ensures r.Success? ==> r.value == newPassword
  {
    if newPassword != confirmPassword then Failure("Password fields didn't match.") else Success(newPassword)
  }
}
