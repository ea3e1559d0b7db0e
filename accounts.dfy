/**
 * Users and their roles (apps/accounts/models.py): the capability
 * predicates, the approval level, the display name, the role lookup and the
 * argument checks of the user manager.
 */
module Accounts {
  import opened Wrappers
  import opened Text

  type UserId = nat
  type CityId = nat

  /** `ROLE_CHOICES` plus `ADMIN`, the role `create_superuser` gives by default. */
  datatype Role = Initiator | Approver1 | Approver2 | Approver3 | Approver4 | Approver5 | Admin

  /** The roles of `ROLE_CHOICES`, in declaration order (`ADMIN` is not among them). */
  const RoleChoices: seq<Role> := [Initiator, Approver1, Approver2, Approver3, Approver4, Approver5]

  datatype User = User(
    id: UserId,
    username: string,
    email: string,
    firstName: string,
    lastName: string,
    role: Role,
    city: Option<CityId>,
    isActive: bool,
    isStaff: bool,
    isSuperuser: bool)

  /** Rows are kept in primary-key order, so ids strictly increase along the table. */
  predicate IncreasingIds(users: seq<User>)
  {
    forall i, j :: 0 <= i < j < |users| ==> users[i].id < users[j].id
  }

  /** `user.is_superuser or user.is_staff` (`is_admin`, and the first test of the access predicates). */
  predicate IsAdmin(u: User)
  {
    u.isSuperuser || u.isStaff
  }

  /** The role `APPROVER_<i>`. */
  function ApproverRole(i: nat): (r: Role)
    requires 1 <= i <= 5
    ensures r in RoleChoices && r != Initiator
  {
    match i
    case 1 => Approver1
    case 2 => Approver2
    case 3 => Approver3
    case 4 => Approver4
    case _ => Approver5
  }

  /** The role code stored in the database, e.g. `APPROVER_3`. */
  function RoleCode(r: Role): string
  {
    match r
    case Initiator => "INITIATOR"
    case Approver1 => "APPROVER_1"
    case Approver2 => "APPROVER_2"
    case Approver3 => "APPROVER_3"
    case Approver4 => "APPROVER_4"
    case Approver5 => "APPROVER_5"
    case Admin => "ADMIN"
  }

  /** The human-readable role name of `ROLE_CHOICES`, e.g. `Approver Level 3`. */
  function RoleName(r: Role): string
  {
    match r
    case Initiator => "Initiator"
    case Approver1 => "Approver Level 1"
    case Approver2 => "Approver Level 2"
    case Approver3 => "Approver Level 3"
    case Approver4 => "Approver Level 4"
    case Approver5 => "Approver Level 5"
    case Admin => "Admin"
  }

  predicate IsApproverRole(r: Role)
  {
    r in {Approver1, Approver2, Approver3, Approver4, Approver5}
  }

  /** `full_name`: first name, one space, last name. */
  function FullName(u: User): (r: string)
    ensures |r| == |u.firstName| + 1 + |u.lastName|
    ensures r[..|u.firstName|] == u.firstName && r[|u.firstName|] == ' '
    ensures r[|u.firstName| + 1..] == u.lastName
  {
    u.firstName + " " + u.lastName
  }

  /** `can_create_requests`: only initiators raise deposits and withdrawals. */
  predicate CanCreateRequests(u: User)
  {
    u.role == Initiator
  }

  /** `can_approve_requests`: any of the five approver roles; never also an initiator. */
  function CanApproveRequests(u: User): (r: bool)
    ensures r <==> exists i :: 1 <= i <= 5 && u.role == ApproverRole(i)
    ensures r ==> !CanCreateRequests(u)
  {
    assert u.role == Approver1 ==> u.role == ApproverRole(1);
    assert u.role == Approver2 ==> u.role == ApproverRole(2);
    assert u.role == Approver3 ==> u.role == ApproverRole(3);
    assert u.role == Approver4 ==> u.role == ApproverRole(4);
    assert u.role == Approver5 ==> u.role == ApproverRole(5);
    IsApproverRole(u.role)
  }

  /** `get_approval_level`: i for `APPROVER_i`, None for every other role. */
  function ApprovalLevel(u: User): (r: Option<nat>)
    ensures r.Some? <==> CanApproveRequests(u)
    ensures r.Some? ==> 1 <= r.value <= 5 && ApproverRole(r.value) == u.role
  {
    match u.role
    case Approver1 => Some(1)
    case Approver2 => Some(2)
    case Approver3 => Some(3)
    case Approver4 => Some(4)
    case Approver5 => Some(5)
    case _ => None
  }

  predicate ActiveWithRole(u: User, role: Role)
  {
    u.role == role && u.isActive
  }

  /** Number of active users holding `role`. */
  function CountActive(users: seq<User>, role: Role): (n: nat)
    ensures n <= |users|
  {
    if users == [] then 0
    else CountActive(users[..|users| - 1], role) + (if ActiveWithRole(users[|users| - 1], role) then 1 else 0)
  }

  /**
   * `get_user_by_role`: the active user holding `role`, the first one (the
   * table is in primary-key order) when there are several, None when there is none.
   */
  function GetUserByRole(users: seq<User>, role: Role): (r: Option<User>)
    ensures r.None? <==> forall i :: 0 <= i < |users| ==> !ActiveWithRole(users[i], role)
    ensures r.Some? ==> exists i :: 0 <= i < |users| && users[i] == r.value && ActiveWithRole(r.value, role)
                          && forall j :: 0 <= j < i ==> !ActiveWithRole(users[j], role)
  {
    if users == [] then None
    else if ActiveWithRole(users[0], role) then Some(users[0])
    else
      var r := GetUserByRole(users[1..], role);
      GetUserByRoleShift(users, role, r);
      r
  }

  lemma GetUserByRoleShift(users: seq<User>, role: Role, r: Option<User>)
    requires users != [] && !ActiveWithRole(users[0], role)
    requires r.None? <==> forall i :: 0 <= i < |users[1..]| ==> !ActiveWithRole(users[1..][i], role)
    requires r.Some? ==> exists i :: 0 <= i < |users[1..]| && users[1..][i] == r.value && ActiveWithRole(r.value, role)
                           && forall j :: 0 <= j < i ==> !ActiveWithRole(users[1..][j], role)
    ensures r.None? <==> forall i :: 0 <= i < |users| ==> !ActiveWithRole(users[i], role)
    ensures r.Some? ==> exists i :: 0 <= i < |users| && users[i] == r.value && ActiveWithRole(r.value, role)
                          && forall j :: 0 <= j < i ==> !ActiveWithRole(users[j], role)
  {
    if r.None? {
      forall i | 1 <= i < |users| ensures !ActiveWithRole(users[i], role) {
        assert users[i] == users[1..][i - 1];
      }
    } else {
      var k :| 0 <= k < |users[1..]| && users[1..][k] == r.value && ActiveWithRole(r.value, role)
               && forall j :: 0 <= j < k ==> !ActiveWithRole(users[1..][j], role);
      assert users[k + 1] == r.value;
      forall j | 0 <= j < k + 1 ensures !ActiveWithRole(users[j], role) {
        if j > 0 { assert users[j] == users[1..][j - 1]; }
      }
    }
  }

  /** Errors raised by the user manager. */
  datatype ManagerError = EmailRequired | StaffRequired | SuperuserRequired

  /** The position of the last `c` in `s`, if there is one. */
  function LastIndex(s: string, c: char): (k: Option<nat>)
    ensures k.Some? <==> c in s
    ensures k.Some? ==> k.value < |s| && s[k.value] == c && forall i :: k.value < i < |s| ==> s[i] != c
  {
    if s == [] then None
    else if s[|s| - 1] == c then Some(|s| - 1)
    else
      var k := LastIndex(s[..|s| - 1], c);
      assert s == s[..|s| - 1] + [s[|s| - 1]];
      k
  }

  /**
   * `BaseUserManager.normalize_email`: the email is stripped and split at
   * its last `@`, and the domain part is lowered; an email without `@` is
   * returned as it was, unstripped.
   */
  function NormalizeEmail(email: string): (r: string)
    ensures '@' !in email ==> r == email
    ensures '@' in Strip(email) <==> '@' in email
    ensures '@' in email ==>
              var s := Strip(email);
              var k := LastIndex(s, '@').value;
              |r| == |s| && r[..k + 1] == s[..k + 1] && r[k + 1..] == Lower(s[k + 1..])
  {
    var s := Strip(email);
    StripKeepsChar(email, '@');
    match LastIndex(s, '@')
    case None => email
    case Some(k) =>
      var r := s[..k] + "@" + Lower(s[k + 1..]);
      assert s[..k + 1] == s[..k] + "@";
      assert r[..k + 1] == s[..k + 1] && r[k + 1..] == Lower(s[k + 1..]);
      r
  }

  /** Normalizing a normalized email changes nothing. */
  lemma NormalizeIdempotent(email: string)
    ensures NormalizeEmail(NormalizeEmail(email)) == NormalizeEmail(email)
  {
    if '@' in email {
      var k := NormalizedShape(email);
      NormalizeFixed(NormalizeEmail(email), k);
    }
  }

  /** A normalized email is trimmed, keeps its last `@` at `k`, and has a lower-case domain part. */
  lemma NormalizedShape(email: string) returns (k: nat)
    requires '@' in email
    ensures var r := NormalizeEmail(email);
            Strip(r) == r && LastIndex(r, '@') == Some(k) && Lower(r[k + 1..]) == r[k + 1..]
  {
    var s := Strip(email);
    StripKeepsChar(email, '@');
    k := LastIndex(s, '@').value;
    var r := NormalizeEmail(email);
    NormalizedIsTrimmed(email);
    NormalizedKeepsLastAt(email);
    LowerIdempotent(s[k + 1..]);
    assert r[k + 1..] == Lower(s[k + 1..]);
  }

  /** An email that is trimmed and whose domain part is already lower case normalizes to itself. */
  lemma NormalizeFixed(r: string, k: nat)
    requires Strip(r) == r && LastIndex(r, '@') == Some(k) && Lower(r[k + 1..]) == r[k + 1..]
    ensures NormalizeEmail(r) == r
  {
    assert '@' in r && r[k] == '@';
    assert NormalizeEmail(r) == r[..k] + "@" + r[k + 1..];
    assert r == r[..k] + [r[k]] + r[k + 1..];
  }

  /** A normalized email with an `@` has no whitespace at either end. */
  lemma NormalizedIsTrimmed(email: string)
    requires '@' in email
    ensures Strip(NormalizeEmail(email)) == NormalizeEmail(email)
  {
    var s := Strip(email);
    StripKeepsChar(email, '@');
    var k := LastIndex(s, '@').value;
    var r := NormalizeEmail(email);
    assert r[..k + 1][k] == '@';
    assert !IsSpace(r[0]) by {
      assert r[0] == r[..k + 1][0] == s[..k + 1][0];
    }
    assert !IsSpace(r[|r| - 1]) by {
      if k + 1 < |s| {
        assert r[|r| - 1] == r[k + 1..][|s| - k - 2] == LowerChar(s[k + 1..][|s| - k - 2]);
      } else {
        assert r[|r| - 1] == r[..k + 1][k];
      }
    }
    StripOfTrimmed(r);
  }

  /** Lowering the domain part adds no `@`, so the last `@` stays where it was. */
  lemma NormalizedKeepsLastAt(email: string)
    requires '@' in email
    ensures LastIndex(NormalizeEmail(email), '@') == LastIndex(Strip(email), '@')
  {
    var s := Strip(email);
    StripKeepsChar(email, '@');
    var k := LastIndex(s, '@').value;
    var r := NormalizeEmail(email);
    assert r[k] == r[..k + 1][k] == '@';
    forall i | k + 1 <= i < |r| ensures r[i] != '@' {
      assert r[i] == r[k + 1..][i - k - 1] == LowerChar(s[k + 1..][i - k - 1]);
      assert s[k + 1..][i - k - 1] == s[i];
      assert s[i] != '@' by { assert s[i] == s[k + 1..][i - k - 1]; }
    }
    LastIndexUnique(r, '@', k);
  }

  /** A string with no whitespace at its ends strips to itself. */
  lemma StripOfTrimmed(r: string)
    requires r != [] && !IsSpace(r[0]) && !IsSpace(r[|r| - 1])
    ensures Strip(r) == r
  {
    assert LeadingSpace(r) == 0;
    var r2 := Strip(r);
    assert r[..|r2|] == r2;
  }

  /** The last occurrence is the only one with nothing equal after it. */
  lemma LastIndexUnique(s: string, c: char, k: nat)
    requires k < |s| && s[k] == c && c !in s[k + 1..]
    ensures LastIndex(s, c) == Some(k)
  {
    var j := LastIndex(s, c).value;
    assert s[j + 1..] == s[j + 1..];
  }

  /** Lowering twice lowers nothing more. */
  lemma LowerIdempotent(s: string)
    ensures Lower(Lower(s)) == Lower(s)
  {
  }

  /**
   * `create_user`: the email must be set (the empty string counts as not
   * set), and the user is created with the normalized email.
   */
  function CreateUserCheck(email: string): (r: Result<string, ManagerError>)
    ensures r.Err? <==> email == ""
    ensures r.Ok? ==> r.value == NormalizeEmail(email)
  {
    if email == "" then Err(EmailRequired) else Ok(NormalizeEmail(email))
  }

  datatype SuperuserFields = SuperuserFields(isStaff: bool, isSuperuser: bool, role: Role)

  /**
   * `create_superuser`: `is_staff` and `is_superuser` default to True and
   * `role` to ADMIN; an explicit value other than True is refused before the
   * email is checked.
   */
  function CreateSuperuserCheck(email: string, isStaff: Option<bool>, isSuperuser: Option<bool>, role: Option<Role>)
    : (r: Result<SuperuserFields, ManagerError>)
    ensures r.Ok? <==> isStaff != Some(false) && isSuperuser != Some(false) && email != ""
    ensures r.Ok? ==> r.value.isStaff && r.value.isSuperuser
    ensures r.Ok? ==> r.value.role == (if role.Some? then role.value else Admin)
    ensures isStaff == Some(false) ==> r == Err(StaffRequired)
    ensures isStaff != Some(false) && isSuperuser == Some(false) ==> r == Err(SuperuserRequired)
  {
    var staff := if isStaff.Some? then isStaff.value else true;
    var superuser := if isSuperuser.Some? then isSuperuser.value else true;
    var r := if role.Some? then role.value else Admin;
    if !staff then Err(StaffRequired)
    else if !superuser then Err(SuperuserRequired)
    else match CreateUserCheck(email)
      case Err(e) => Err(e)
      case Ok(_) => Ok(SuperuserFields(staff, superuser, r))
  }

  // ---------------------------------------------------------------------------
  // ensure_single_user_per_role

  /** The email of the default user of a role: the role code in lower case at `municipal.gov`. */
  function RoleEmail(r: Role): string
  {
    match r
    case Initiator => "initiator@municipal.gov"
    case Approver1 => "approver_1@municipal.gov"
    case Approver2 => "approver_2@municipal.gov"
    case Approver3 => "approver_3@municipal.gov"
    case Approver4 => "approver_4@municipal.gov"
    case Approver5 => "approver_5@municipal.gov"
    case Admin => "admin@municipal.gov"
  }

  /** The default user created for a role with no active holder: named after the role, last name `User`. */
  function RoleDefaultUser(id: UserId, r: Role): User
  {
    User(id, "", RoleEmail(r), RoleName(r), "User", r, None, true, false, false)
  }

  /** `email` is unique: some row, active or not, already uses it. */
  predicate EmailTaken(users: seq<User>, email: string)
  {
    exists i :: 0 <= i < |users| && users[i].email == email
  }

  /** Whether the bulk update deactivates the user at position `i`: it holds `role` after an earlier active holder. */
  predicate Surplus(users: seq<User>, i: nat, role: Role)
    requires i < |users|
  {
    ActiveWithRole(users[i], role) && CountActive(users[..i], role) > 0
  }

  /**
   * The bulk update of the `count() > 1` branch: every active holder of
   * `role` after the first one in primary-key order is deactivated, and
   * nothing else changes.
   */
  function DeactivateSurplus(users: seq<User>, role: Role): (r: seq<User>)
    ensures |r| == |users|
    ensures forall i :: 0 <= i < |users| ==>
              r[i] == if Surplus(users, i, role) then users[i].(isActive := false) else users[i]
  {
    if users == [] then []
    else
      var init, last := users[..|users| - 1], users[|users| - 1];
      assert forall i :: 0 <= i < |init| ==> users[..i] == init[..i];
      assert users[..|users| - 1] == init;
      DeactivateSurplus(init, role)
        + [if ActiveWithRole(last, role) && CountActive(init, role) > 0 then last.(isActive := false) else last]
  }

  /** After the bulk update the role has exactly one active holder when it had any. */
  lemma {:induction false} DeactivateSurplusCount(users: seq<User>, role: Role)
    ensures CountActive(DeactivateSurplus(users, role), role) == if CountActive(users, role) > 0 then 1 else 0
  {
    if users != [] {
      var n := |users|;
      DeactivateSurplusCount(users[..n - 1], role);
      assert DeactivateSurplus(users, role)[..n - 1] == DeactivateSurplus(users[..n - 1], role);
    }
  }

  /** The bulk update on one role leaves the active count of every other role as it was. */
  lemma {:induction false} DeactivateSurplusOthers(users: seq<User>, role: Role, other: Role)
    requires other != role
    ensures CountActive(DeactivateSurplus(users, role), other) == CountActive(users, other)
  {
    if users != [] {
      var n := |users|;
      DeactivateSurplusOthers(users[..n - 1], role, other);
      assert DeactivateSurplus(users, role)[..n - 1] == DeactivateSurplus(users[..n - 1], role);
    }
  }

  /** Appending a user adds one to its role's count when it is active. */
  lemma CountActiveAppend(users: seq<User>, u: User, role: Role)
    ensures CountActive(users + [u], role) == CountActive(users, role) + (if ActiveWithRole(u, role) then 1 else 0)
  {
    assert (users + [u])[..|users|] == users;
  }

  /**
   * One pass of the loop of `ensure_single_user_per_role` for `role`: with
   * no active holder a default user is created under the next primary key
   * (refused when its email is already in use, as the unique constraint
   * would refuse it); with several, the surplus holders are deactivated;
   * with exactly one nothing changes.
   */
  function EnsureRole(users: seq<User>, next: UserId, role: Role): (r: Result<(seq<User>, UserId), Role>)
    ensures r.Err? <==> CountActive(users, role) == 0 && EmailTaken(users, RoleEmail(role))
    ensures r.Err? ==> r.error == role
    ensures r.Ok? && CountActive(users, role) == 1 ==> r.value == (users, next)
  {
    var n := CountActive(users, role);
    if n == 0 then
      if EmailTaken(users, RoleEmail(role)) then Err(role)
      else Ok((users + [RoleDefaultUser(next, role)], next + 1))
    else if n > 1 then Ok((DeactivateSurplus(users, role), next))
    else Ok((users, next))
  }

  /** The users and the next primary key after the loop, and the role whose default user could not be created. */
  datatype RoleSync = RoleSync(users: seq<User>, next: UserId, failed: Option<Role>)

  /** The loop over `roles`: the first refused creation stops it, and what the earlier passes wrote stays written. */
  function EnsureRoles(users: seq<User>, next: UserId, roles: seq<Role>): RoleSync
    decreases |roles|
  {
    if roles == [] then RoleSync(users, next, None)
    else match EnsureRole(users, next, roles[0])
      case Err(role) => RoleSync(users, next, Some(role))
      case Ok(p) => EnsureRoles(p.0, p.1, roles[1..])
  }

  /** A pass leaves its role exactly one active holder and every other role's count as it was. */
  lemma EnsureRoleCounts(users: seq<User>, next: UserId, role: Role, other: Role)
    requires EnsureRole(users, next, role).Ok?
    ensures CountActive(EnsureRole(users, next, role).value.0, other)
            == if other == role then 1 else CountActive(users, other)
  {
    var n := CountActive(users, role);
    if n == 0 {
      assert EnsureRole(users, next, role).value.0 == users + [RoleDefaultUser(next, role)];
      CountActiveAppend(users, RoleDefaultUser(next, role), other);
    } else if n > 1 {
      assert EnsureRole(users, next, role).value.0 == DeactivateSurplus(users, role);
      if other == role {
        DeactivateSurplusCount(users, role);
      } else {
        DeactivateSurplusOthers(users, role, other);
      }
    }
  }

  /**
   * When the loop over distinct roles completes, every role it visited has
   * exactly one active holder and every other role keeps its count.
   */
  lemma {:induction false} EnsureRolesCounts(users: seq<User>, next: UserId, roles: seq<Role>, other: Role)
    requires forall i, j :: 0 <= i < j < |roles| ==> roles[i] != roles[j]
    ensures var s := EnsureRoles(users, next, roles);
            s.failed.None? ==> CountActive(s.users, other) == if other in roles then 1 else CountActive(users, other)
    decreases |roles|
  {
    if roles != [] {
      var step := EnsureRole(users, next, roles[0]);
      if step.Ok? {
        var (u2, n2) := step.value;
        EnsureRoleCounts(users, next, roles[0], other);
        EnsureRolesCounts(u2, n2, roles[1..], other);
        assert other in roles <==> other == roles[0] || other in roles[1..];
        if other == roles[0] {
          assert other !in roles[1..] by {
            forall k | 0 <= k < |roles[1..]| ensures roles[1..][k] != other {
              assert roles[1..][k] == roles[k + 1];
            }
          }
        }
      }
    }
  }

  /** A loop that stops does so at a visited role with no active holder whose default email is taken. */
  lemma {:induction false} EnsureRolesFailure(users: seq<User>, next: UserId, roles: seq<Role>)
    ensures var s := EnsureRoles(users, next, roles);
            s.failed.Some? ==> s.failed.value in roles && CountActive(s.users, s.failed.value) == 0
                               && EmailTaken(s.users, RoleEmail(s.failed.value))
    decreases |roles|
  {
    if roles != [] {
      var step := EnsureRole(users, next, roles[0]);
      if step.Ok? {
        EnsureRolesFailure(step.value.0, step.value.1, roles[1..]);
      }
    }
  }

  /** Users of increasing primary keys, all below the next one. */
  predicate KeyedBelow(users: seq<User>, next: UserId)
  {
    IncreasingIds(users) && forall u :: u in users ==> u.id < next
  }

  /** `users2` keeps every row of `users` but for `is_active`, which it may only clear, and adds rows after them. */
  predicate OnlyDeactivates(users: seq<User>, users2: seq<User>)
  {
    |users2| >= |users|
    && (forall i :: 0 <= i < |users| ==> users2[i] == users[i].(isActive := users2[i].isActive))
    && (forall i :: 0 <= i < |users| && users2[i].isActive ==> users[i].isActive)
  }

  /** Appending a user under the next key keeps the keys valid and changes no existing row. */
  lemma AppendKeyed(users: seq<User>, next: UserId, u: User)
    requires KeyedBelow(users, next) && u.id == next
    ensures KeyedBelow(users + [u], next + 1) && OnlyDeactivates(users, users + [u])
  {
    var u2 := users + [u];
    forall i, j | 0 <= i < j < |u2| ensures u2[i].id < u2[j].id {
      if j == |users| { assert u2[i] in users; }
    }
  }

  /** The bulk deactivation keeps the keys valid and only clears `is_active`. */
  lemma DeactivateKeyed(users: seq<User>, next: UserId, role: Role)
    requires KeyedBelow(users, next)
    ensures KeyedBelow(DeactivateSurplus(users, role), next) && OnlyDeactivates(users, DeactivateSurplus(users, role))
  {
    var u2 := DeactivateSurplus(users, role);
    SameIdsKeyed(users, u2, next);
    assert OnlyDeactivates(users, u2);
  }

  /** A table with the same keys in the same positions is keyed as the original. */
  lemma SameIdsKeyed(users: seq<User>, u2: seq<User>, next: UserId)
    requires KeyedBelow(users, next) && |u2| == |users|
    requires forall i :: 0 <= i < |u2| ==> u2[i].id == users[i].id
    ensures KeyedBelow(u2, next)
  {
    forall u | u in u2 ensures u.id < next {
      var k :| 0 <= k < |u2| && u2[k] == u;
      assert users[k] in users;
    }
  }

  /** One pass keeps the keys valid, only deactivates, and adds at most the default user of its role. */
  lemma EnsureRoleRows(users: seq<User>, next: UserId, role: Role)
    requires KeyedBelow(users, next) && EnsureRole(users, next, role).Ok?
    ensures var p := EnsureRole(users, next, role).value;
            KeyedBelow(p.0, p.1) && p.1 >= next && OnlyDeactivates(users, p.0)
            && forall i :: |users| <= i < |p.0| ==> p.0[i] == RoleDefaultUser(p.0[i].id, role)
  {
    if CountActive(users, role) == 0 {
      AppendKeyed(users, next, RoleDefaultUser(next, role));
    } else if CountActive(users, role) > 1 {
      DeactivateKeyed(users, next, role);
    }
  }

  lemma OnlyDeactivatesTrans(a: seq<User>, b: seq<User>, c: seq<User>)
    requires OnlyDeactivates(a, b) && OnlyDeactivates(b, c)
    ensures OnlyDeactivates(a, c)
  {
    forall i | 0 <= i < |a| ensures c[i] == a[i].(isActive := c[i].isActive) {
      assert c[i] == b[i].(isActive := c[i].isActive);
    }
  }

  /**
   * The loop never deletes a user and never activates one: the existing rows
   * keep their position and every field but `is_active`, which can only go
   * from true to false; new rows get fresh increasing primary keys.
   */
  lemma {:induction false} EnsureRolesRows(users: seq<User>, next: UserId, roles: seq<Role>)
    requires KeyedBelow(users, next)
    ensures var s := EnsureRoles(users, next, roles);
            KeyedBelow(s.users, s.next) && s.next >= next && OnlyDeactivates(users, s.users)
    decreases |roles|
  {
    if roles != [] {
      var step := EnsureRole(users, next, roles[0]);
      if step.Ok? {
        var u2 := step.value.0;
        EnsureRoleRows(users, next, roles[0]);
        EnsureRolesRows(u2, step.value.1, roles[1..]);
        OnlyDeactivatesTrans(users, u2, EnsureRoles(u2, step.value.1, roles[1..]).users);
      }
    }
  }

  /** `u` is the default user of `role`, but for `is_active`. */
  predicate DefaultUserOf(u: User, role: Role)
  {
    u.(isActive := true) == RoleDefaultUser(u.id, role)
  }

  /** The rows after position `from` are each the default user of one of `roles`. */
  predicate AddedFrom(rows: seq<User>, from: nat, roles: seq<Role>)
  {
    |rows| >= from && forall i :: from <= i < |rows| ==> rows[i].role in roles && DefaultUserOf(rows[i], rows[i].role)
  }

  /** Each row the loop adds is the default user of a visited role (which a later pass may have deactivated). */
  lemma {:induction false} EnsureRolesAdded(users: seq<User>, next: UserId, roles: seq<Role>)
    requires KeyedBelow(users, next)
    ensures AddedFrom(EnsureRoles(users, next, roles).users, |users|, roles)
    decreases |roles|
  {
    if roles != [] {
      var step := EnsureRole(users, next, roles[0]);
      if step.Ok? {
        var u2 := step.value.0;
        EnsureRoleRows(users, next, roles[0]);
        EnsureRolesRows(u2, step.value.1, roles[1..]);
        EnsureRolesAdded(u2, step.value.1, roles[1..]);
        var s := EnsureRoles(u2, step.value.1, roles[1..]);
        assert s == EnsureRoles(users, next, roles);
        AddedAcrossPass(users, u2, s.users, roles);
      }
    }
  }

  /** The rows of one pass followed by those of the later passes are all default users of visited roles. */
  lemma AddedAcrossPass(users: seq<User>, u2: seq<User>, rows: seq<User>, roles: seq<Role>)
    requires roles != [] && |u2| >= |users|
    requires forall i :: |users| <= i < |u2| ==> u2[i] == RoleDefaultUser(u2[i].id, roles[0])
    requires OnlyDeactivates(u2, rows) && AddedFrom(rows, |u2|, roles[1..])
    ensures AddedFrom(rows, |users|, roles)
  {
    forall i | |users| <= i < |rows| ensures rows[i].role in roles && DefaultUserOf(rows[i], rows[i].role) {
      if i < |u2| {
        assert rows[i] == u2[i].(isActive := rows[i].isActive);
        assert roles[0] in roles;
      } else {
        assert rows[i].role in roles[1..];
      }
    }
  }

  lemma RoleChoicesDistinct()
    ensures forall i, j :: 0 <= i < j < |RoleChoices| ==> RoleChoices[i] != RoleChoices[j]
  {
  }

  /**
   * `ensure_single_user_per_role` run to the end leaves every role of
   * `ROLE_CHOICES` exactly one active user.
   */
  lemma SingleUserPerRole(users: seq<User>, next: UserId, s: RoleSync)
    requires s == EnsureRoles(users, next, RoleChoices) && s.failed.None?
    ensures forall role :: role in RoleChoices ==> CountActive(s.users, role) == 1
  {
    RoleChoicesDistinct();
    forall role | role in RoleChoices ensures CountActive(s.users, role) == 1 {
      EnsureRolesCounts(users, next, RoleChoices, role);
    }
  }

  /** ADMIN, which the loop does not visit, keeps as many active users as before. */
  lemma AdminHoldersKept(users: seq<User>, next: UserId, s: RoleSync)
    requires s == EnsureRoles(users, next, RoleChoices) && s.failed.None?
    ensures CountActive(s.users, Admin) == CountActive(users, Admin)
  {
    RoleChoicesDistinct();
    AdminNotChosen();
    EnsureRolesCounts(users, next, RoleChoices, Admin);
  }

  lemma AdminNotChosen()
    ensures Admin !in RoleChoices
  {
  }

  /** One pass of the loop of `ensure_single_user_per_role`: the count, then the insert or the bulk deactivation. */
  method SyncRole(users0: seq<User>, next0: UserId, role: Role) returns (r: Result<(seq<User>, UserId), Role>)
    ensures r == EnsureRole(users0, next0, role)
  {
    var holders := CountActive(users0, role);
    if holders == 0 {
      if EmailTaken(users0, RoleEmail(role)) {
        return Err(role);
      }
      return Ok((users0 + [RoleDefaultUser(next0, role)], next0 + 1));
    } else if holders > 1 {
      return Ok((DeactivateSurplus(users0, role), next0));
    }
    r := Ok((users0, next0));
  }

  /** The loop of `ensure_single_user_per_role` over `roles`, on the rows as values. */
  method SyncRoles(users0: seq<User>, next0: UserId, roles: seq<Role>) returns (users: seq<User>, next: UserId, failed: Option<Role>)
    requires KeyedBelow(users0, next0)
    ensures EnsureRoles(users0, next0, roles) == RoleSync(users, next, failed)
    ensures KeyedBelow(users, next)
  {
    EnsureRolesRows(users0, next0, roles);
    users, next := users0, next0;
    var i := 0;
    while i < |roles|
      invariant 0 <= i <= |roles|
      invariant EnsureRoles(users0, next0, roles) == EnsureRoles(users, next, roles[i..])
    {
      assert roles[i..][0] == roles[i] && roles[i..][1..] == roles[i + 1..];
      var pass := SyncRole(users, next, roles[i]);
      if pass.Err? {
        return users, next, Some(pass.error);
      }
      users, next := pass.value.0, pass.value.1;
      i := i + 1;
    }
    failed := None;
  }
}
