/**
 * Approver roster and required-count configuration
 * (apps/admin_panel/models.py): assignments of approvers to a transaction
 * type, their username ordering, the required-approvals lookup with its
 * defaults, and the get-or-create resync of the required count.
 */
module AdminPanel {
  import opened Wrappers
  import opened Accounts

  /** Transaction types are the strings the source compares against. */
  type TxType = string

  const DEPOSIT: TxType := "DEPOSIT"
  const WITHDRAWAL: TxType := "WITHDRAWAL"

  /** An `ApproverAssignment` row. */
  datatype Assignment = Assignment(id: nat, kind: TxType, approver: UserId, isActive: bool)

  /** An `ApprovalConfiguration` row; `transaction_type` is unique. */
  datatype Config = Config(kind: TxType, requiredApprovals: nat, isActive: bool)

  /** The default of `required_approvals` for a new configuration row. */
  const DefaultRequiredApprovals: nat := 3

  // ---------------------------------------------------------------------------
  // Username ordering

  /** Lexicographic order on code points, as the database orders `approver__username`. */
  predicate LexLeq(a: string, b: string)
  {
    a == [] || (b != [] && (a[0] < b[0] || (a[0] == b[0] && LexLeq(a[1..], b[1..]))))
  }

  lemma {:induction false} LexTotal(a: string, b: string)
    ensures LexLeq(a, b) || LexLeq(b, a)
  {
    if a != [] && b != [] && a[0] == b[0] {
      LexTotal(a[1..], b[1..]);
    }
  }

  lemma {:induction false} LexTrans(a: string, b: string, c: string)
    requires LexLeq(a, b) && LexLeq(b, c)
    ensures LexLeq(a, c)
  {
    if a != [] && b != [] && c != [] && a[0] == b[0] && b[0] == c[0] {
      LexTrans(a[1..], b[1..], c[1..]);
    }
  }

  /** The username of user `id`; the empty string when there is no such user. */
  function UsernameOf(users: seq<User>, id: UserId): string
  {
    if users == [] then ""
    else if users[0].id == id then users[0].username
    else UsernameOf(users[1..], id)
  }

  predicate SortedByUsername(s: seq<Assignment>, users: seq<User>)
  {
    forall i, j :: 0 <= i < j < |s| ==> LexLeq(UsernameOf(users, s[i].approver), UsernameOf(users, s[j].approver))
  }

  /** Insert `x` before the first row whose username is not smaller (stable). */
  function Insert(x: Assignment, s: seq<Assignment>, users: seq<User>): (r: seq<Assignment>)
    ensures multiset(r) == multiset(s) + multiset{x}
  {
    if s == [] then [x]
    else if LexLeq(UsernameOf(users, x.approver), UsernameOf(users, s[0].approver)) then [x] + s
    else
      assert s == [s[0]] + s[1..];
      [s[0]] + Insert(x, s[1..], users)
  }

  lemma {:induction false} InsertSorted(x: Assignment, s: seq<Assignment>, users: seq<User>)
    requires SortedByUsername(s, users)
    ensures SortedByUsername(Insert(x, s, users), users)
  {
    var key := (a: Assignment) => UsernameOf(users, a.approver);
    if s == [] {
    } else if LexLeq(key(x), key(s[0])) {
      var r := [x] + s;
      forall i, j | 0 <= i < j < |r| ensures LexLeq(key(r[i]), key(r[j])) {
        if i == 0 {
          if j > 1 { LexTrans(key(x), key(s[0]), key(s[j - 1])); }
        } else {
          assert r[i] == s[i - 1] && r[j] == s[j - 1];
        }
      }
    } else {
      LexTotal(key(x), key(s[0]));
      InsertSorted(x, s[1..], users);
      var t := Insert(x, s[1..], users);
      var r := [s[0]] + t;
      forall i, j | 0 <= i < j < |r| ensures LexLeq(key(r[i]), key(r[j])) {
        if i == 0 {
          assert r[j] in multiset(t);
          assert r[j] == x || r[j] in multiset(s[1..]);
          if r[j] != x {
            var k :| 0 <= k < |s[1..]| && s[1..][k] == r[j];
            assert s[k + 1] == r[j];
          }
        } else {
          assert r[i] == t[i - 1] && r[j] == t[j - 1];
        }
      }
    }
  }

  /** Rows sorted by approver username, keeping the table order among equal names. */
  function SortByUsername(s: seq<Assignment>, users: seq<User>): (r: seq<Assignment>)
    ensures multiset(r) == multiset(s)
    ensures SortedByUsername(r, users)
  {
    if s == [] then []
    else
      assert s == [s[0]] + s[1..];
      InsertSorted(s[0], SortByUsername(s[1..], users), users);
      Insert(s[0], SortByUsername(s[1..], users), users)
  }

  // ---------------------------------------------------------------------------
  // ApproverAssignment class methods

  predicate Selected(a: Assignment, kind: TxType, activeOnly: bool)
  {
    a.kind == kind && (a.isActive || !activeOnly)
  }

  /** The rows of one type (and only the active ones when `activeOnly`), in table order. */
  function SelectRows(assignments: seq<Assignment>, kind: TxType, activeOnly: bool): (r: seq<Assignment>)
    ensures forall a :: a in r <==> a in assignments && Selected(a, kind, activeOnly)
    ensures |r| <= |assignments|
  {
    if assignments == [] then []
    else
      var rest := SelectRows(assignments[..|assignments| - 1], kind, activeOnly);
      var last := assignments[|assignments| - 1];
      assert assignments == assignments[..|assignments| - 1] + [last];
      if Selected(last, kind, activeOnly) then rest + [last] else rest
  }

  /**
   * `get_approvers_for_transaction_type`: the rows of that type (only the
   * active ones when `activeOnly`, the default), ordered by approver username.
   */
  function ApproversFor(assignments: seq<Assignment>, users: seq<User>, kind: TxType, activeOnly: bool)
    : (r: seq<Assignment>)
    ensures forall a :: a in r <==> a in assignments && Selected(a, kind, activeOnly)
    ensures multiset(r) == multiset(SelectRows(assignments, kind, activeOnly))
    ensures SortedByUsername(r, users)
  {
    var rows := SelectRows(assignments, kind, activeOnly);
    var r := SortByUsername(rows, users);
    assert forall a :: a in r <==> a in multiset(r);
    assert forall a :: a in rows <==> a in multiset(rows);
    r
  }

  /** `unique_together = ['transaction_type', 'approver']`. */
  predicate UniqueAssignments(assignments: seq<Assignment>)
  {
    forall i, j :: 0 <= i < j < |assignments| ==>
      !(assignments[i].kind == assignments[j].kind && assignments[i].approver == assignments[j].approver)
  }

  predicate DistinctIds(ids: seq<UserId>)
  {
    forall i, j :: 0 <= i < j < |ids| ==> ids[i] != ids[j]
  }

  /** `[a.approver for a in rows]`. */
  function ApproverIds(rows: seq<Assignment>): (r: seq<UserId>)
    ensures |r| == |rows| && forall i :: 0 <= i < |rows| ==> r[i] == rows[i].approver
  {
    if rows == [] then [] else [rows[0].approver] + ApproverIds(rows[1..])
  }

  lemma {:induction false} SelectRowsDistinct(assignments: seq<Assignment>, kind: TxType)
    requires UniqueAssignments(assignments)
    ensures DistinctIds(ApproverIds(SelectRows(assignments, kind, true)))
  {
    if assignments != [] {
      var init, last := assignments[..|assignments| - 1], assignments[|assignments| - 1];
      assert UniqueAssignments(init);
      SelectRowsDistinct(init, kind);
      var rest := SelectRows(init, kind, true);
      if Selected(last, kind, true) {
        var r := rest + [last];
        forall i, j | 0 <= i < j < |r| ensures r[i].approver != r[j].approver {
          if j == |rest| {
            assert r[i] in init;
            var k :| 0 <= k < |init| && init[k] == r[i];
            assert assignments[k] == r[i];
          }
        }
      }
    }
  }

  lemma {:induction false} DistinctOnce<T>(s: seq<T>, v: T)
    requires forall i, j :: 0 <= i < j < |s| ==> s[i] != s[j]
    ensures multiset(s)[v] <= 1
  {
    if s != [] {
      assert s == [s[0]] + s[1..];
      DistinctOnce(s[1..], v);
      if v == s[0] {
        assert v !in s[1..];
      }
    }
  }

  lemma TwiceInMultiset<T>(s: seq<T>, i: nat, j: nat)
    requires i < j < |s| && s[i] == s[j]
    ensures multiset(s)[s[i]] >= 2
  {
    assert s == s[..j] + [s[j]] + s[j + 1..];
    assert s[i] in s[..j];
  }

  /** Reordering rows keeps their approvers distinct. */
  lemma PermutationDistinct(rows: seq<Assignment>, r: seq<Assignment>)
    requires multiset(r) == multiset(rows)
    requires DistinctIds(ApproverIds(rows))
    ensures DistinctIds(ApproverIds(r))
  {
    forall i, j | 0 <= i < j < |r| ensures r[i].approver != r[j].approver {
      if r[i].approver == r[j].approver {
        assert r[i] in multiset(rows) && r[j] in multiset(rows);
        var p :| 0 <= p < |rows| && rows[p] == r[i];
        var q :| 0 <= q < |rows| && rows[q] == r[j];
        assert ApproverIds(rows)[p] == ApproverIds(rows)[q];
        assert p == q;
        TwiceInMultiset(r, i, j);
        DistinctOnce(rows, r[i]);
        assert false;
      }
    }
  }

  /** The active approvers of a type are distinct users. */
  lemma ApproversForDistinct(assignments: seq<Assignment>, users: seq<User>, kind: TxType)
    requires UniqueAssignments(assignments)
    ensures DistinctIds(ApproverIds(ApproversFor(assignments, users, kind, true)))
  {
    SelectRowsDistinct(assignments, kind);
    PermutationDistinct(SelectRows(assignments, kind, true), ApproversFor(assignments, users, kind, true));
  }

  /** Number of active rows of a type, counted over the table. */
  function ActiveCount(assignments: seq<Assignment>, kind: TxType): nat
  {
    |SelectRows(assignments, kind, true)|
  }

  /** `get_required_approvers_count`: the number of active assignments of that type. */
  function RequiredApproversCount(assignments: seq<Assignment>, users: seq<User>, kind: TxType): (n: nat)
    ensures n == ActiveCount(assignments, kind)
  {
    var r := ApproversFor(assignments, users, kind, true);
    assert |r| == |multiset(r)| == |multiset(SelectRows(assignments, kind, true))|;
    |r|
  }

  // ---------------------------------------------------------------------------
  // ApprovalConfiguration

  /** Position of the configuration row of `kind`, if any. */
  function ConfigIndex(configs: seq<Config>, kind: TxType): (r: Option<nat>)
    ensures r.None? <==> forall i :: 0 <= i < |configs| ==> configs[i].kind != kind
    ensures r.Some? ==> r.value < |configs| && configs[r.value].kind == kind
  {
    if configs == [] then None
    else if configs[|configs| - 1].kind == kind then Some(|configs| - 1)
    else ConfigIndex(configs[..|configs| - 1], kind)
  }

  /** At most one configuration row per transaction type. */
  predicate UniqueKinds(configs: seq<Config>)
  {
    forall i, j :: 0 <= i < j < |configs| ==> configs[i].kind != configs[j].kind
  }

  /** The built-in count used when no active configuration exists. */
  function DefaultRequired(kind: TxType): nat
  {
    if kind == DEPOSIT then 3 else 5
  }

  /**
   * `get_required_approvals`: the active configuration's count; 3 for
   * DEPOSIT and 5 for every other type when there is no active row.
   */
  function RequiredApprovals(configs: seq<Config>, kind: TxType): (n: nat)
    requires UniqueKinds(configs)
    ensures (exists i :: 0 <= i < |configs| && configs[i].kind == kind && configs[i].isActive
               && n == configs[i].requiredApprovals)
            || ((forall i :: 0 <= i < |configs| ==> !(configs[i].kind == kind && configs[i].isActive))
               && n == DefaultRequired(kind))
  {
    match ConfigIndex(configs, kind)
    case Some(i) => if configs[i].isActive then configs[i].requiredApprovals else DefaultRequired(kind)
    case None => DefaultRequired(kind)
  }

  /**
   * `get_or_create(transaction_type=kind, defaults={'required_approvals': n})`
   * followed by `required_approvals = n` on an existing row: the row of
   * `kind` gets count `n` (its active flag is kept); a missing row is appended active.
   */
  function SetRequired(configs: seq<Config>, kind: TxType, n: nat): (r: seq<Config>)
    requires UniqueKinds(configs)
    ensures UniqueKinds(r)
    ensures ConfigIndex(r, kind).Some? && r[ConfigIndex(r, kind).value].requiredApprovals == n
    ensures forall i :: 0 <= i < |configs| && configs[i].kind != kind ==> configs[i] in r
    ensures forall c :: c in r && c.kind != kind ==> c in configs
    ensures forall i :: 0 <= i < |configs| && configs[i].kind == kind ==>
              r == configs[i := configs[i].(requiredApprovals := n)]
    ensures ConfigIndex(configs, kind).None? ==> r == configs + [Config(kind, n, true)]
  {
    match ConfigIndex(configs, kind)
    case Some(i) =>
      var r := configs[i := configs[i].(requiredApprovals := n)];
      assert r[i].kind == kind;
      assert forall j :: 0 <= j < |r| ==> r[j].kind == configs[j].kind;
      assert ConfigIndex(r, kind) == Some(i) by {
        var k := ConfigIndex(r, kind);
        assert k.Some?;
        assert r[k.value].kind == kind;
      }
      assert forall j :: 0 <= j < |configs| && configs[j].kind != kind ==> configs[j] in r by {
        forall j | 0 <= j < |configs| && configs[j].kind != kind ensures configs[j] in r {
          assert r[j] == configs[j];
        }
      }
      assert forall c :: c in r && c.kind != kind ==> c in configs by {
        forall c | c in r && c.kind != kind ensures c in configs {
          var j :| 0 <= j < |r| && r[j] == c;
          assert j != i;
        }
      }
      r
    case None =>
      var r := configs + [Config(kind, n, true)];
      assert r[|configs|].kind == kind;
      r
  }

  /** Setting the same count twice is the same as setting it once. */
  lemma SetRequiredIdempotent(configs: seq<Config>, kind: TxType, n: nat)
    requires UniqueKinds(configs)
    ensures SetRequired(SetRequired(configs, kind, n), kind, n) == SetRequired(configs, kind, n)
  {
    var r := SetRequired(configs, kind, n);
    var i := ConfigIndex(r, kind).value;
    assert r[i].kind == kind;
    assert r[i := r[i].(requiredApprovals := n)] == r;
  }

  /**
   * After a resync the lookup returns the new count unless an existing row of
   * that type is inactive, in which case it still returns the default.
   */
  lemma SetRequiredLookup(configs: seq<Config>, kind: TxType, n: nat)
    requires UniqueKinds(configs)
    ensures var r := SetRequired(configs, kind, n);
            RequiredApprovals(r, kind) ==
              if (exists i :: 0 <= i < |configs| && configs[i].kind == kind && !configs[i].isActive)
              then DefaultRequired(kind) else n
  {
    var r := SetRequired(configs, kind, n);
    var k := ConfigIndex(configs, kind);
    if k.Some? {
      assert r == configs[k.value := configs[k.value].(requiredApprovals := n)];
      assert r[k.value].kind == kind;
      forall i | 0 <= i < |configs| && configs[i].kind == kind ensures i == k.value { }
    } else {
      assert r[|configs|] == Config(kind, n, true);
    }
  }

  /** Resyncing one type leaves the count looked up for every other type unchanged. */
  lemma SetRequiredOtherKind(configs: seq<Config>, kind: TxType, n: nat, other: TxType)
    requires UniqueKinds(configs) && other != kind
    ensures RequiredApprovals(SetRequired(configs, kind, n), other) == RequiredApprovals(configs, other)
  {
    var r := SetRequired(configs, kind, n);
    var k := ConfigIndex(configs, other);
    if k.Some? {
      assert configs[k.value] in r;
      var j :| 0 <= j < |r| && r[j] == configs[k.value];
      assert r[j].kind == other;
    } else {
      forall i | 0 <= i < |r| ensures r[i].kind != other {
        assert r[i] in r;
      }
    }
  }

  /** The approver-capable, active users that have no active assignment for `kind`. */
  function AvailableApprovers(users: seq<User>, assignments: seq<Assignment>, kind: TxType): (r: seq<User>)
    ensures forall u :: u in r <==>
              u in users && CanApproveRequests(u) && u.isActive
              && !exists a :: a in assignments && a.kind == kind && a.isActive && a.approver == u.id
  {
    var taken := set a | a in assignments && a.kind == kind && a.isActive :: a.approver;
    ByRole(Candidates(users, taken))
  }

  /** Active approver-capable users whose id is not in `excluded`, in table order. */
  function Candidates(users: seq<User>, excluded: set<UserId>): (r: seq<User>)
    ensures forall u :: u in r <==> u in users && CanApproveRequests(u) && u.isActive && u.id !in excluded
    ensures IncreasingIds(users) ==> IncreasingIds(r)
  {
    if users == [] then []
    else
      var rest := Candidates(users[1..], excluded);
      assert forall u :: u in users <==> u == users[0] || u in users[1..];
      if CanApproveRequests(users[0]) && users[0].isActive && users[0].id !in excluded
      then [users[0]] + rest else rest
  }

  function WithRole(users: seq<User>, role: Role): (r: seq<User>)
    ensures forall u :: u in r <==> u in users && u.role == role
  {
    if users == [] then []
    else
      assert forall u :: u in users <==> u == users[0] || u in users[1..];
      (if users[0].role == role then [users[0]] else []) + WithRole(users[1..], role)
  }

  /** `order_by('role')` over approver users: level 1 first, then 2, up to 5. */
  function ByRole(users: seq<User>): (r: seq<User>)
    requires forall u :: u in users ==> CanApproveRequests(u)
    ensures forall u :: u in r <==> u in users
  {
    var r := WithRole(users, Approver1) + WithRole(users, Approver2) + WithRole(users, Approver3)
      + WithRole(users, Approver4) + WithRole(users, Approver5);
    assert forall u :: u in users ==> u in r by {
      forall u | u in users ensures u in r {
        assert CanApproveRequests(u);
        var i :| 1 <= i <= 5 && u.role == ApproverRole(i);
      }
    }
    r
  }
}
