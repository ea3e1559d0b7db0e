/**
 * The approval workflow helpers (apps/transactions/utils.py): approval
 * progress, the status recomputation after each decision, the choice of
 * approvers for a new transaction, and the access predicates. The table
 * updates that apply these are members of `Wallet`.
 */
module Workflow {
  import opened Wrappers
  import opened Accounts
  import opened Cities
  import opened AdminPanel
  import opened Transactions
  import opened Approvals

  // ---------------------------------------------------------------------------
  // get_approval_progress

  /** `RequestApproval.objects.filter(transaction=t)`, in table (creation) order. */
  function RecordsOf(records: seq<Approval>, tx: TxId): (r: seq<Approval>)
    ensures forall a :: a in r <==> a in records && a.transaction == tx
    ensures |r| <= |records|
  {
    if records == [] then []
    else
      var init, last := records[..|records| - 1], records[|records| - 1];
      assert records == init + [last];
      var rest := RecordsOf(init, tx);
      if last.transaction == tx then rest + [last] else rest
  }

  /** `approvals.filter(status=st).count()`. */
  function CountWith(records: seq<Approval>, st: ApprovalStatus): (n: nat)
    ensures n <= |records|
  {
    if records == [] then 0
    else CountWith(records[..|records| - 1], st) + (if records[|records| - 1].status == st then 1 else 0)
  }

  /** A count is positive exactly when some record has that status. */
  lemma {:induction false} CountPositive(records: seq<Approval>, st: ApprovalStatus)
    ensures CountWith(records, st) > 0 <==> exists a :: a in records && a.status == st
  {
    if records != [] {
      var init, last := records[..|records| - 1], records[|records| - 1];
      assert records == init + [last];
      CountPositive(init, st);
    }
  }

  /** Every record is PENDING, APPROVED or REJECTED, so the three counts add up to the total. */
  lemma {:induction false} CountsAddUp(records: seq<Approval>)
    ensures CountWith(records, ApprovalStatus.Approved) + CountWith(records, ApprovalStatus.Rejected) + CountWith(records, ApprovalStatus.Pending) == |records|
  {
    if records != [] {
      CountsAddUp(records[..|records| - 1]);
    }
  }

  lemma RecordsOfSnoc(records: seq<Approval>, a: Approval, tx: TxId)
    ensures RecordsOf(records + [a], tx) == if a.transaction == tx then RecordsOf(records, tx) + [a] else RecordsOf(records, tx)
  {
    assert (records + [a])[..|records|] == records;
  }

  lemma CountSnoc(records: seq<Approval>, a: Approval, st: ApprovalStatus)
    ensures CountWith(records + [a], st) == CountWith(records, st) + (if a.status == st then 1 else 0)
  {
    assert (records + [a])[..|records|] == records;
  }

  /** Approving one PENDING record of a transaction adds exactly one to its approved count. */
  lemma {:induction false} ApprovedCountGrows(records: seq<Approval>, i: nat, b: Approval, tx: TxId)
    requires i < |records| && records[i].transaction == tx && b.transaction == tx
    requires records[i].status == ApprovalStatus.Pending && b.status == ApprovalStatus.Approved
    ensures CountWith(RecordsOf(records[i := b], tx), ApprovalStatus.Approved)
            == CountWith(RecordsOf(records, tx), ApprovalStatus.Approved) + 1
  {
    var n := |records| - 1;
    var init, last := records[..n], records[n];
    assert records == init + [last];
    RecordsOfSnoc(init, last, tx);
    if i == n {
      assert records[i := b] == init + [b];
      RecordsOfSnoc(init, b, tx);
      CountSnoc(RecordsOf(init, tx), b, ApprovalStatus.Approved);
      CountSnoc(RecordsOf(init, tx), last, ApprovalStatus.Approved);
    } else {
      assert records[i := b] == init[i := b] + [last];
      ApprovedCountGrows(init, i, b, tx);
      RecordsOfSnoc(init[i := b], last, tx);
      CountSnoc(RecordsOf(init, tx), last, ApprovalStatus.Approved);
      CountSnoc(RecordsOf(init[i := b], tx), last, ApprovalStatus.Approved);
    }
  }

  /** The display name of the user with that id (`approver.full_name`). */
  function NameOf(users: seq<User>, id: UserId): string
  {
    if users == [] then ""
    else if users[0].id == id then FullName(users[0])
    else NameOf(users[1..], id)
  }

  /** `[a.approver.full_name for a in approvals.filter(status=st)]`. */
  function NamesWith(records: seq<Approval>, users: seq<User>, st: ApprovalStatus): (r: seq<string>)
    ensures |r| == CountWith(records, st)
  {
    if records == [] then []
    else
      var init, last := records[..|records| - 1], records[|records| - 1];
      NamesWith(init, users, st) + (if last.status == st then [NameOf(users, last.approver)] else [])
  }

  datatype Progress = Progress(
    approved: nat,
    rejected: nat,
    pending: nat,
    required: nat,
    total: nat,
    isComplete: bool,
    isRejected: bool,
    approvedNames: seq<string>,
    rejectedNames: seq<string>,
    pendingNames: seq<string>)

  /**
   * `get_approval_progress` (the `requestapproval_set` branch, the only one a
   * transaction can reach): counts of the transaction's records by status,
   * the required count from the configuration, complete when enough have
   * approved and rejected as soon as one has rejected.
   */
  function ApprovalProgress(records: seq<Approval>, configs: seq<Config>, users: seq<User>, t: Transaction)
    : (p: Progress)
    requires UniqueKinds(configs)
    ensures p.approved + p.rejected + p.pending == p.total == |RecordsOf(records, t.id)|
    ensures p.required == RequiredApprovals(configs, t.kind)
    ensures p.isComplete <==> p.approved >= p.required
    ensures p.isRejected <==> exists a :: a in records && a.transaction == t.id && a.status == ApprovalStatus.Rejected
    ensures p.approved > 0 <==> exists a :: a in records && a.transaction == t.id && a.status == ApprovalStatus.Approved
    ensures |p.approvedNames| == p.approved && |p.rejectedNames| == p.rejected && |p.pendingNames| == p.pending
  {
    var mine := RecordsOf(records, t.id);
    var required := RequiredApprovals(configs, t.kind);
    var approved := CountWith(mine, ApprovalStatus.Approved);
    var rejected := CountWith(mine, ApprovalStatus.Rejected);
    var pending := CountWith(mine, ApprovalStatus.Pending);
    CountsAddUp(mine);
    CountPositive(mine, ApprovalStatus.Rejected);
    CountPositive(mine, ApprovalStatus.Approved);
    Progress(approved, rejected, pending, required, |mine|, approved >= required, rejected > 0,
             NamesWith(mine, users, ApprovalStatus.Approved), NamesWith(mine, users, ApprovalStatus.Rejected), NamesWith(mine, users, ApprovalStatus.Pending))
  }

  // ---------------------------------------------------------------------------
  // check_transaction_status

  /**
   * `check_transaction_status` on a transaction and its account: REJECTED
   * when any record rejected; otherwise, when complete, APPROVED and then
   * `execute()`, which makes it EXECUTED if the money moved; otherwise
   * PENDING. The current status is never consulted.
   */
  function CheckStatus(t: Transaction, a: Account, p: Progress, now: Time): (r: (Transaction, Account))
    ensures p.isRejected ==> r == (t.(status := TxStatus.Rejected), a)
    ensures !p.isRejected && !p.isComplete ==> r == (t.(status := TxStatus.Pending), a)
    ensures !p.isRejected && p.isComplete ==>
              var e := Execute(t.(status := TxStatus.Approved), a, now);
              r == (e.0, e.1)
              && (r.0.status == TxStatus.Executed <==> t.kind == DEPOSIT || CanWithdraw(a, t.amount))
              && (r.0.status != TxStatus.Executed ==> r.0 == t.(status := TxStatus.Approved) && r.1 == a)
  {
    if p.isRejected then (t.(status := TxStatus.Rejected), a)
    else if p.isComplete then
      var e := Execute(t.(status := TxStatus.Approved), a, now);
      (e.0, e.1)
    else (t.(status := TxStatus.Pending), a)
  }

  /** A single REJECTED record decides the status, however many approvals there are. */
  lemma RejectionWins(records: seq<Approval>, configs: seq<Config>, users: seq<User>,
                      t: Transaction, a: Account, now: Time, k: nat)
    requires UniqueKinds(configs)
    requires k < |records| && records[k].transaction == t.id && records[k].status == ApprovalStatus.Rejected
    ensures CheckStatus(t, a, ApprovalProgress(records, configs, users, t), now).0.status == TxStatus.Rejected
  {
    assert records[k] in records;
  }

  /**
   * As written, an EXECUTED deposit is executed again by every later
   * recomputation that still finds it complete: two recomputations credit
   * the amount twice.
   */
  lemma RecheckCreditsAgain(t: Transaction, a: Account, p1: Progress, p2: Progress, now1: Time, now2: Time)
    requires t.kind == DEPOSIT
    requires p1.isComplete && !p1.isRejected && p2.isComplete && !p2.isRejected
    ensures var (t1, a1) := CheckStatus(t, a, p1, now1);
            t1.status == TxStatus.Executed
            && CheckStatus(t1, a1, p2, now2).1.balance == a.balance + 2 * t.amount
  {
  }

  /** As written, a CANCELLED deposit that later collects enough approvals is executed. */
  lemma CancelledTransactionExecutes(t: Transaction, a: Account, p: Progress, now: Time)
    requires t.status == TxStatus.Cancelled && t.kind == DEPOSIT
    requires p.isComplete && !p.isRejected
    ensures CheckStatus(t, a, p, now).0.status == TxStatus.Executed
    ensures CheckStatus(t, a, p, now).1.balance == a.balance + t.amount
  {
  }

  /** As written, a CANCELLED transaction that is not yet complete is put back to PENDING. */
  lemma CancelledTransactionReopens(t: Transaction, a: Account, p: Progress, now: Time)
    requires t.status == TxStatus.Cancelled && !p.isComplete && !p.isRejected
    ensures CheckStatus(t, a, p, now).0.status == TxStatus.Pending
  {
  }

  /** The statuses from which a recomputation may still move a transaction. */
  predicate Open(t: Transaction)
  {
    t.status == TxStatus.Pending || t.status == TxStatus.Approved
  }

  /**
   * The recomputation as evidently intended: it acts only on an open
   * transaction (PENDING, or APPROVED after a withdrawal the balance could
   * not cover); REJECTED, EXECUTED and CANCELLED are final.
   */
  function GuardedCheckStatus(t: Transaction, a: Account, p: Progress, now: Time): (r: (Transaction, Account))
    ensures Open(t) ==> r == CheckStatus(t, a, p, now)
    ensures !Open(t) ==> r == (t, a)
  {
    if Open(t) then CheckStatus(t, a, p, now) else (t, a)
  }

  /** Applies the corrected recomputation once per decision, in order. */
  function Replay(t: Transaction, a: Account, ps: seq<Progress>, now: Time): (r: (Transaction, Account))
    decreases |ps|
  {
    if ps == [] then (t, a)
    else
      var (t1, a1) := GuardedCheckStatus(t, a, ps[0], now);
      Replay(t1, a1, ps[1..], now)
  }

  /** The balance change one execution of `t` makes. */
  function Effect(t: Transaction): int
  {
    if t.kind == DEPOSIT then t.amount else -t.amount
  }

  /** A final transaction is left alone by any number of corrected recomputations. */
  lemma {:induction false} ReplayFinal(t: Transaction, a: Account, ps: seq<Progress>, now: Time)
    requires !Open(t)
    ensures Replay(t, a, ps, now) == (t, a)
    decreases |ps|
  {
    if ps != [] {
      ReplayFinal(t, a, ps[1..], now);
    }
  }

  /**
   * With the corrected recomputation an open transaction moves its account's
   * balance at most once, however many decisions follow: the balance ends
   * either unchanged or changed by exactly one execution, and only when the
   * transaction ends EXECUTED.
   */
  lemma {:induction false} ExecutesAtMostOnce(t: Transaction, a: Account, ps: seq<Progress>, now: Time)
    requires Open(t)
    ensures var (t2, a2) := Replay(t, a, ps, now);
            t2.kind == t.kind && t2.amount == t.amount
            && (a2 == a || (t2.status == TxStatus.Executed && a2.balance == a.balance + Effect(t)))
    decreases |ps|
  {
    if ps != [] {
      var (t1, a1) := GuardedCheckStatus(t, a, ps[0], now);
      if Open(t1) {
        assert a1 == a;
        ExecutesAtMostOnce(t1, a1, ps[1..], now);
      } else {
        ReplayFinal(t1, a1, ps[1..], now);
      }
    }
  }

  /** The corrected recomputation is idempotent for a fixed progress. */
  lemma GuardedIdempotent(t: Transaction, a: Account, p: Progress, now: Time, now2: Time)
    ensures var (t1, a1) := GuardedCheckStatus(t, a, p, now);
            GuardedCheckStatus(t1, a1, p, now2) == (t1, a1)
  {
  }

  // ---------------------------------------------------------------------------
  // create_request_approvals

  function Ids(users: seq<User>): (r: seq<UserId>)
    ensures |r| == |users| && forall i :: 0 <= i < |users| ==> r[i] == users[i].id
  {
    if users == [] then [] else [users[0].id] + Ids(users[1..])
  }

  /**
   * The assigned approvers followed by as many fallback users, in order, as
   * are needed to reach `required` (all of them if there are too few); the
   * assigned ones alone when they already reach it.
   */
  function Padded(primary: seq<UserId>, pool: seq<UserId>, required: nat): (r: seq<UserId>)
    ensures |primary| >= required ==> r == primary
    ensures |primary| < required ==>
              (exists k :: 0 <= k <= |pool| && r == primary + pool[..k]
                 && (k == |pool| || |r| == required) && |r| <= required)
  {
    if |primary| >= required then primary
    else
      var k := if |pool| <= required - |primary| then |pool| else required - |primary|;
      primary + pool[..k]
  }

  /** The loop at apps/transactions/utils.py:114-117. */
  method FillApprovers(primary: seq<UserId>, pool: seq<UserId>, required: nat) returns (approvers: seq<UserId>)
    requires |primary| < required
    ensures approvers == Padded(primary, pool, required)
  {
    approvers := primary;
    var i := 0;
    while i < |pool|
      invariant 0 <= i <= |pool|
      invariant approvers == primary + pool[..i]
      invariant |approvers| <= required
    {
      if |approvers| >= required {
        break;
      }
      approvers := approvers + [pool[i]];
      i := i + 1;
    }
    assert approvers == primary + pool[..i];
    assert i == |pool| || |approvers| == required;
  }

  /**
   * Why `create_request_approvals` failed: no `APPROVER_<level>` user in the
   * settings fallback (`ValueError`), or the bulk insert hit `unique_together`
   * (`IntegrityError`).
   */
  datatype CreateError = RoleMissing(level: nat) | DuplicateRecord

  /**
   * The settings fallback: for `i` in 1..n the active `APPROVER_i` user
   * (the first one when there are several); there is no such role beyond 5.
   */
  function RoleFallback(users: seq<User>, n: nat): (r: Result<seq<UserId>, CreateError>)
    ensures r.Ok? ==> |r.value| == n
    ensures r.Ok? ==> forall i :: 1 <= i <= n ==>
              i <= 5 && GetUserByRole(users, ApproverRole(i)).Some?
              && r.value[i - 1] == GetUserByRole(users, ApproverRole(i)).value.id
    ensures r.Err? ==> r.error.RoleMissing? && 1 <= r.error.level <= n
                       && (r.error.level > 5 || GetUserByRole(users, ApproverRole(r.error.level)).None?)
  {
    if n == 0 then Ok([])
    else match RoleFallback(users, n - 1)
      case Err(e) => Err(e)
      case Ok(ids) =>
        if n > 5 then Err(RoleMissing(n))
        else match GetUserByRole(users, ApproverRole(n))
          case None => Err(RoleMissing(n))
          case Some(u) => Ok(ids + [u.id])
  }

  /** Once a level is missing, every longer fallback fails on that level. */
  lemma {:induction false} RoleFallbackErrSticks(users: seq<User>, m: nat, n: nat)
    requires m <= n && RoleFallback(users, m).Err?
    ensures RoleFallback(users, n) == RoleFallback(users, m)
    decreases n - m
  {
    if m < n {
      RoleFallbackErrSticks(users, m, n - 1);
    }
  }

  /** The loop at apps/transactions/utils.py:129-134: stops at the first missing role. */
  method RoleFallbackLoop(users: seq<User>, n: nat) returns (r: Result<seq<UserId>, CreateError>)
    ensures r == RoleFallback(users, n)
  {
    var approvers: seq<UserId> := [];
    var i := 1;
    while i <= n
      invariant 1 <= i <= n + 1
      invariant RoleFallback(users, i - 1) == Ok(approvers)
    {
      if i > 5 {
        RoleFallbackErrSticks(users, i, n);
        return Err(RoleMissing(i));
      }
      var found := GetUserByRole(users, ApproverRole(i));
      if found.None? {
        RoleFallbackErrSticks(users, i, n);
        return Err(RoleMissing(i));
      }
      approvers := approvers + [found.value.id];
      i := i + 1;
    }
    r := Ok(approvers);
  }

  /** Approvers with distinct levels are distinct users. */
  lemma {:induction false} RoleFallbackDistinct(users: seq<User>, n: nat)
    requires IncreasingIds(users)
    ensures RoleFallback(users, n).Ok? ==> DistinctIds(RoleFallback(users, n).value)
  {
    var r := RoleFallback(users, n);
    if r.Ok? {
      forall i, j | 0 <= i < j < |r.value| ensures r.value[i] != r.value[j] {
        var u := GetUserByRole(users, ApproverRole(i + 1)).value;
        var v := GetUserByRole(users, ApproverRole(j + 1)).value;
        var p :| 0 <= p < |users| && users[p] == u && ActiveWithRole(u, ApproverRole(i + 1));
        var q :| 0 <= q < |users| && users[q] == v && ActiveWithRole(v, ApproverRole(j + 1));
        assert u.role != v.role;
        assert p != q;
      }
    }
  }

  /**
   * `create_request_approvals` up to the bulk insert: the ids of the users
   * who get a PENDING record, or the error that escapes. The assigned
   * approvers of the type come first in username order; when they are fewer
   * than required, other active approver-role users are added; when that is
   * still short, the `ValueError` is caught and the settings fallback takes over.
   */
  function ResolveApprovers(assignments: seq<Assignment>, configs: seq<Config>, users: seq<User>, kind: TxType)
    : (r: Result<seq<UserId>, CreateError>)
    requires UniqueKinds(configs)
  {
    var required := RequiredApprovals(configs, kind);
    var primary := ApproverIds(ApproversFor(assignments, users, kind, true));
    var pool := Ids(Candidates(users, set id | id in primary));
    var approvers := Padded(primary, pool, required);
    if |approvers| < required then RoleFallback(users, DefaultRequired(kind))
    else Ok(approvers)
  }

  /** The assigned approvers followed by a prefix of other candidates hold no user twice. */
  lemma PaddedDistinct(primary: seq<UserId>, cands: seq<User>, required: nat)
    requires DistinctIds(primary) && IncreasingIds(cands)
    requires forall u :: u in cands ==> u.id !in primary
    ensures DistinctIds(Padded(primary, Ids(cands), required))
  {
    var pool := Ids(cands);
    var approvers := Padded(primary, pool, required);
    if |primary| < required {
      var k :| 0 <= k <= |pool| && approvers == primary + pool[..k];
      forall i, j | 0 <= i < j < |approvers| ensures approvers[i] != approvers[j] {
        if j >= |primary| {
          assert approvers[j] == cands[j - |primary|].id;
          assert cands[j - |primary|] in cands;
          if i >= |primary| {
            assert approvers[i] == cands[i - |primary|].id;
          }
        }
      }
    }
  }

  /** The selection holds no user twice, so the bulk insert cannot break `unique_together`. */
  lemma ResolvedDistinct(assignments: seq<Assignment>, configs: seq<Config>, users: seq<User>, kind: TxType)
    requires UniqueKinds(configs) && UniqueAssignments(assignments) && IncreasingIds(users)
    ensures ResolveApprovers(assignments, configs, users, kind).Ok? ==>
              DistinctIds(ResolveApprovers(assignments, configs, users, kind).value)
  {
    var required := RequiredApprovals(configs, kind);
    var primary := ApproverIds(ApproversFor(assignments, users, kind, true));
    var cands := Candidates(users, set id | id in primary);
    if |Padded(primary, Ids(cands), required)| < required {
      RoleFallbackDistinct(users, DefaultRequired(kind));
    } else {
      ApproversForDistinct(assignments, users, kind);
      PaddedDistinct(primary, cands, required);
    }
  }

  /**
   * Whenever the assignments and the fallback users reach the required count
   * no error is raised and there are at least that many approvers.
   */
  lemma PrimaryAtLeastRequired(assignments: seq<Assignment>, configs: seq<Config>, users: seq<User>, kind: TxType)
    requires UniqueKinds(configs)
    ensures var required := RequiredApprovals(configs, kind);
            var primary := ApproverIds(ApproversFor(assignments, users, kind, true));
            var pool := Ids(Candidates(users, set id | id in primary));
            |primary| + |pool| >= required ==>
              ResolveApprovers(assignments, configs, users, kind).Ok?
              && |ResolveApprovers(assignments, configs, users, kind).value| >= required
  {
  }

  /**
   * The assigned approvers are never cut down: when the active assignments
   * reach the required count, every one of them gets a record, however many
   * more there are than required.
   */
  lemma AssignedNeverCut(assignments: seq<Assignment>, configs: seq<Config>, users: seq<User>, kind: TxType)
    requires UniqueKinds(configs)
    requires ActiveCount(assignments, kind) >= RequiredApprovals(configs, kind)
    ensures ResolveApprovers(assignments, configs, users, kind)
            == Ok(ApproverIds(ApproversFor(assignments, users, kind, true)))
    ensures |ResolveApprovers(assignments, configs, users, kind).value| == ActiveCount(assignments, kind)
  {
    assert |ApproversFor(assignments, users, kind, true)| == RequiredApproversCount(assignments, users, kind);
  }

  /**
   * Three active DEPOSIT assignments with a configured count of two give
   * three records, whatever the user table.
   */
  lemma MayExceedRequired(users: seq<User>)
    ensures var assignments := [Assignment(1, DEPOSIT, 1, true), Assignment(2, DEPOSIT, 2, true),
                                Assignment(3, DEPOSIT, 3, true)];
            var configs := [Config(DEPOSIT, 2, true)];
            RequiredApprovals(configs, DEPOSIT) == 2
            && ResolveApprovers(assignments, configs, users, DEPOSIT).Ok?
            && |ResolveApprovers(assignments, configs, users, DEPOSIT).value| == 3
  {
    var a1 := [Assignment(1, DEPOSIT, 1, true)];
    var a2 := a1 + [Assignment(2, DEPOSIT, 2, true)];
    var a3 := a2 + [Assignment(3, DEPOSIT, 3, true)];
    var configs := [Config(DEPOSIT, 2, true)];
    assert a1[..0] == [];
    assert SelectRows(a1, DEPOSIT, true) == a1;
    assert a2[..1] == a1;
    assert SelectRows(a2, DEPOSIT, true) == a2;
    assert a3[..2] == a2;
    assert |SelectRows(a3, DEPOSIT, true)| == 3;
    assert RequiredApprovals(configs, DEPOSIT) == 2;
    assert a3 == [Assignment(1, DEPOSIT, 1, true), Assignment(2, DEPOSIT, 2, true), Assignment(3, DEPOSIT, 3, true)];
    AssignedNeverCut(a3, configs, users, DEPOSIT);
  }

  // ---------------------------------------------------------------------------
  // get_next_approver_for_transaction and the access predicates

  /** The approver of the first PENDING record of the transaction, if any. */
  function NextApprover(records: seq<Approval>, tx: TxId): (r: Option<UserId>)
    ensures r.None? <==> forall a :: a in records && a.transaction == tx ==> a.status != ApprovalStatus.Pending
    ensures r.Some? ==> exists k :: 0 <= k < |records| && records[k].transaction == tx
                          && records[k].status == ApprovalStatus.Pending && records[k].approver == r.value
                          && forall j :: 0 <= j < k ==> !(records[j].transaction == tx && records[j].status == ApprovalStatus.Pending)
  {
    if records == [] then None
    else if records[0].transaction == tx && records[0].status == ApprovalStatus.Pending then Some(records[0].approver)
    else
      var r := NextApprover(records[1..], tx);
      assert forall a :: a in records <==> a == records[0] || a in records[1..];
      assert r.Some? ==> exists k :: 0 <= k < |records| && records[k].transaction == tx
                           && records[k].status == ApprovalStatus.Pending && records[k].approver == r.value
                           && forall j :: 0 <= j < k ==> !(records[j].transaction == tx && records[j].status == ApprovalStatus.Pending)
      by {
        if r.Some? {
          var k :| 0 <= k < |records[1..]| && records[1..][k].transaction == tx
                   && records[1..][k].status == ApprovalStatus.Pending && records[1..][k].approver == r.value
                   && forall j :: 0 <= j < k ==> !(records[1..][j].transaction == tx && records[1..][j].status == ApprovalStatus.Pending);
          assert records[k + 1] == records[1..][k];
          forall j | 0 <= j < k + 1 ensures !(records[j].transaction == tx && records[j].status == ApprovalStatus.Pending) {
            if j > 0 { assert records[j] == records[1..][j - 1]; }
          }
        }
      }
      r
  }

  /** Whether some record of the transaction names the user as approver. */
  predicate AssignedTo(records: seq<Approval>, tx: TxId, u: UserId)
  {
    exists a :: a in records && a.transaction == tx && a.approver == u
  }

  /** `can_user_view_transaction`. */
  predicate CanUserView(u: User, t: Transaction, records: seq<Approval>)
  {
    IsAdmin(u)
    || (CanCreateRequests(u) && t.createdBy == u.id)
    || (CanApproveRequests(u) && AssignedTo(records, t.id, u.id))
  }

  /**
   * `can_user_cancel_transaction`: staff and superusers always, an initiator
   * for their own transactions, nobody else. Whoever may cancel may also view.
   */
  function CanUserCancel(u: User, t: Transaction, records: seq<Approval>): (r: bool)
    ensures r <==> IsAdmin(u) || (u.role == Initiator && t.createdBy == u.id)
    ensures r ==> CanUserView(u, t, records)
  {
    IsAdmin(u) || (CanCreateRequests(u) && t.createdBy == u.id)
  }

  /** The city filter: everyone but staff and superusers with a city sees only that city. */
  predicate InUserCity(u: User, t: Transaction)
  {
    IsAdmin(u) || u.city.None? || t.city == u.city.value
  }

  /** The privilege filter of `get_user_visible_transactions`. */
  predicate VisibleByRole(u: User, t: Transaction, records: seq<Approval>)
  {
    if CanCreateRequests(u) then t.createdBy == u.id
    else if CanApproveRequests(u) then AssignedTo(records, t.id, u.id)
    else IsAdmin(u)
  }

  /** `get_user_visible_transactions(user, base)`, keeping the order of `base`. */
  function VisibleTransactions(u: User, base: seq<Transaction>, records: seq<Approval>): (r: seq<Transaction>)
    ensures forall t :: t in r <==> t in base && InUserCity(u, t) && VisibleByRole(u, t, records)
    ensures |r| <= |base|
  {
    if base == [] then []
    else
      var rest := VisibleTransactions(u, base[1..], records);
      assert forall t :: t in base <==> t == base[0] || t in base[1..];
      if InUserCity(u, base[0]) && VisibleByRole(u, base[0], records) then [base[0]] + rest else rest
  }

  /** Every transaction in the visible list is one the user may open. */
  lemma VisibleImpliesViewable(u: User, base: seq<Transaction>, records: seq<Approval>, t: Transaction)
    requires t in VisibleTransactions(u, base, records)
    ensures CanUserView(u, t, records)
  {
  }

  /**
   * `can_user_process_transaction`: an approver-role user with a PENDING
   * record on the transaction (which `can_be_processed` then always accepts).
   */
  function CanUserProcess(u: User, t: Transaction, records: seq<Approval>): (r: bool)
    ensures r <==> CanApproveRequests(u)
                   && exists a :: a in records && a.transaction == t.id && a.approver == u.id && a.status == ApprovalStatus.Pending
    ensures r ==> CanUserView(u, t, records)
  {
    CanApproveRequests(u) && PendingRecord(records, t.id, u.id).Some?
  }

  /** `RequestApproval.objects.filter(transaction, approver, status='PENDING').first()`. */
  function PendingRecord(records: seq<Approval>, tx: TxId, u: UserId): (r: Option<Approval>)
    ensures r.None? <==> forall a :: a in records && a.transaction == tx && a.approver == u ==> a.status != ApprovalStatus.Pending
    ensures r.Some? ==> r.value in records && r.value.transaction == tx && r.value.approver == u
                        && CanBeProcessed(r.value)
  {
    if records == [] then None
    else if records[0].transaction == tx && records[0].approver == u && records[0].status == ApprovalStatus.Pending
    then Some(records[0])
    else
      assert forall a :: a in records <==> a == records[0] || a in records[1..];
      PendingRecord(records[1..], tx, u)
  }
}
