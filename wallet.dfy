/**
 * The database of the municipal wallet as one object: the tables of users,
 * city accounts, transactions, approval records, approver assignments and
 * approval configurations, with the auto-increment counters of the tables
 * that get new rows. Each method is one operation of the source that
 * changes rows in place; its contract ties the new tables to the pure
 * definitions of the other modules.
 */
module MunicipalWallet {
  import opened Wrappers
  import opened Money
  import opened Accounts
  import opened Cities
  import opened AdminPanel
  import opened Transactions
  import opened Approvals
  import opened Workflow
  import AdminViews
  import opened Refusals
  import opened ApprovalViews
  import opened DashboardViews
  import opened TransactionSerializers
  import opened TransactionViews

  // ---------------------------------------------------------------------------
  // Table invariants and lookups

  function AccountIds(accounts: seq<Account>): set<AccountId>
  {
    set a | a in accounts :: a.id
  }

  /** Position of the account with that primary key. */
  function AccountIndex(accounts: seq<Account>, id: AccountId): (r: Option<nat>)
    ensures r.None? <==> id !in AccountIds(accounts)
    ensures r.Some? ==> r.value < |accounts| && accounts[r.value].id == id
  {
    if accounts == [] then None
    else if accounts[0].id == id then Some(0)
    else
      assert forall a :: a in accounts <==> a == accounts[0] || a in accounts[1..];
      match AccountIndex(accounts[1..], id)
      case None => None
      case Some(k) => Some(k + 1)
  }

  function TxIds(ts: seq<Transaction>): set<TxId>
  {
    set t | t in ts :: t.id
  }

  /** Position of the transaction with that primary key. */
  function TxIndex(ts: seq<Transaction>, id: TxId): (r: Option<nat>)
    ensures r.None? <==> id !in TxIds(ts)
    ensures r.Some? ==> r.value < |ts| && ts[r.value].id == id
  {
    if ts == [] then None
    else if ts[0].id == id then Some(0)
    else
      assert forall t :: t in ts <==> t == ts[0] || t in ts[1..];
      match TxIndex(ts[1..], id)
      case None => None
      case Some(k) => Some(k + 1)
  }

  predicate AccountsValid(accounts: seq<Account>)
  {
    forall i, j :: 0 <= i < j < |accounts| ==> accounts[i].id < accounts[j].id
  }

  /** Primary keys in insertion order, below the counter; every account exists. */
  predicate TransactionsValid(ts: seq<Transaction>, next: nat, accounts: seq<Account>)
  {
    (forall i, j :: 0 <= i < j < |ts| ==> ts[i].id < ts[j].id)
    && (forall t :: t in ts ==> t.id < next && t.account in AccountIds(accounts))
  }

  /** Primary keys in insertion order, every transaction exists, one record per (transaction, approver). */
  predicate ApprovalsValid(records: seq<Approval>, next: nat, ts: seq<Transaction>)
  {
    (forall i, j :: 0 <= i < j < |records| ==> records[i].id < records[j].id)
    && (forall a :: a in records ==> a.id < next && a.transaction in TxIds(ts))
    && UniquePairs(records)
  }

  predicate AssignmentsValid(rows: seq<Assignment>, next: nat)
  {
    (forall i, j :: 0 <= i < j < |rows| ==> rows[i].id < rows[j].id)
    && (forall a :: a in rows ==> a.id < next)
    && UniqueAssignments(rows)
  }

  lemma SameAccountIds(a: seq<Account>, b: seq<Account>)
    requires |a| == |b| && forall k :: 0 <= k < |a| ==> a[k].id == b[k].id
    ensures AccountIds(a) == AccountIds(b)
  {
    forall id | id in AccountIds(a) ensures id in AccountIds(b) {
      var x :| x in a && x.id == id;
      var k :| 0 <= k < |a| && a[k] == x;
      assert b[k] in b;
    }
    forall id | id in AccountIds(b) ensures id in AccountIds(a) {
      var x :| x in b && x.id == id;
      var k :| 0 <= k < |b| && b[k] == x;
      assert a[k] in a;
    }
  }

  lemma SameTxIds(a: seq<Transaction>, b: seq<Transaction>)
    requires |a| == |b| && forall k :: 0 <= k < |a| ==> a[k].id == b[k].id
    ensures TxIds(a) == TxIds(b)
  {
    forall id | id in TxIds(a) ensures id in TxIds(b) {
      var x :| x in a && x.id == id;
      var k :| 0 <= k < |a| && a[k] == x;
      assert b[k] in b;
    }
    forall id | id in TxIds(b) ensures id in TxIds(a) {
      var x :| x in b && x.id == id;
      var k :| 0 <= k < |b| && b[k] == x;
      assert a[k] in a;
    }
  }

  /** Rewriting rows without touching their keys finds every key at the same position. */
  lemma {:induction false} TxIndexSameIds(a: seq<Transaction>, b: seq<Transaction>, id: TxId)
    requires |a| == |b| && forall k :: 0 <= k < |a| ==> a[k].id == b[k].id
    ensures TxIndex(a, id) == TxIndex(b, id)
  {
    if a != [] && a[0].id != id {
      TxIndexSameIds(a[1..], b[1..], id);
    }
  }

  lemma {:induction false} AccountIndexSameIds(a: seq<Account>, b: seq<Account>, id: AccountId)
    requires |a| == |b| && forall k :: 0 <= k < |a| ==> a[k].id == b[k].id
    ensures AccountIndex(a, id) == AccountIndex(b, id)
  {
    if a != [] && a[0].id != id {
      AccountIndexSameIds(a[1..], b[1..], id);
    }
  }

  /**
   * `check_transaction_status` applied to the tables: the transaction at
   * `ti` and its account take the values `CheckStatus` gives them, whatever
   * the transaction's status was (the source tests none).
   */
  function Recompute(ts: seq<Transaction>, accounts: seq<Account>, records: seq<Approval>,
                     configs: seq<Config>, users: seq<User>, ti: nat, now: Time)
    : (r: (seq<Transaction>, seq<Account>))
    requires ti < |ts| && UniqueKinds(configs) && ts[ti].account in AccountIds(accounts)
  {
    var t := ts[ti];
    var ai := AccountIndex(accounts, t.account).value;
    var (t2, a2) := CheckStatus(t, accounts[ai], ApprovalProgress(records, configs, users, t), now);
    (ts[ti := t2], accounts[ai := a2])
  }

  /** A recomputation changes statuses and balances, never a key or a row's account. */
  lemma RecomputeKeepsKeys(ts: seq<Transaction>, accounts: seq<Account>, records: seq<Approval>,
                           configs: seq<Config>, users: seq<User>, ti: nat, now: Time)
    requires ti < |ts| && UniqueKinds(configs)
    requires forall t :: t in ts ==> t.account in AccountIds(accounts)
    ensures var r := Recompute(ts, accounts, records, configs, users, ti, now);
            TxIds(r.0) == TxIds(ts) && AccountIds(r.1) == AccountIds(accounts)
            && (forall t :: t in r.0 ==> t.account in AccountIds(r.1))
  {
    assert ts[ti] in ts;
    var r := Recompute(ts, accounts, records, configs, users, ti, now);
    SameTxIds(r.0, ts);
    SameAccountIds(r.1, accounts);
    forall t | t in r.0 ensures t.account in AccountIds(r.1) {
      var k :| 0 <= k < |r.0| && r.0[k] == t;
      assert ts[k] in ts;
    }
  }

  /** The records `create_request_approvals` builds: PENDING, one per approver, with fresh ids. */
  function NewRecords(start: nat, tx: TxId, ids: seq<UserId>): (r: seq<Approval>)
    ensures |r| == |ids|
    ensures forall k :: 0 <= k < |ids| ==> r[k] == NewApproval(start + k, tx, ids[k])
  {
    if ids == [] then []
    else NewRecords(start, tx, ids[..|ids| - 1]) + [NewApproval(start + |ids| - 1, tx, ids[|ids| - 1])]
  }

  /**
   * What `create_request_approvals` answers on transaction `t`: the error of
   * the approver resolution, a duplicate when a record of `t` already names
   * one of the approvers, or the PENDING records it inserts, numbered from
   * `start`.
   */
  function RequestOutcome(records: seq<Approval>, assignments: seq<Assignment>, configs: seq<Config>,
                          users: seq<User>, t: Transaction, start: nat): Result<seq<Approval>, CreateError>
    requires UniqueKinds(configs)
  {
    match ResolveApprovers(assignments, configs, users, t.kind)
    case Err(e) => Err(e)
    case Ok(ids) =>
      if HasRecordFor(records, t.id, ids) then Err(DuplicateRecord)
      else Ok(NewRecords(start, t.id, ids))
  }

  /**
   * On a transaction no record names yet, `create_request_approvals` never
   * meets a duplicate: it fails exactly when the approvers cannot be resolved.
   */
  lemma FreshRequestOutcome(records: seq<Approval>, assignments: seq<Assignment>, configs: seq<Config>,
                            users: seq<User>, t: Transaction, start: nat)
    requires UniqueKinds(configs) && forall a :: a in records ==> a.transaction != t.id
    ensures var o := RequestOutcome(records, assignments, configs, users, t, start);
            var s := SubmitOutcome(assignments, configs, users, t.kind, t.id, start);
            (o.Ok? ==> s == (Ok(t.id), o.value)) && (o.Err? ==> s == (Err(ApprovalsFailed(o.error)), []))
  {
  }

  /** Some record of the transaction already names one of `ids`. */
  predicate HasRecordFor(records: seq<Approval>, tx: TxId, ids: seq<UserId>)
  {
    exists a :: a in records && a.transaction == tx && a.approver in ids
  }

  /**
   * `approve`/`reject` on the record at `ri`, applied to the tables: the
   * record takes the decision when it is PENDING and no other record of its
   * pair is decided, and the transaction's status is then recomputed from
   * the updated records; otherwise nothing changes. The flag is the return
   * value. The transaction's own status is never consulted.
   */
  function Decision(records: seq<Approval>, ts: seq<Transaction>, accounts: seq<Account>, configs: seq<Config>,
                    users: seq<User>, ri: nat, to: ApprovalStatus, comments: Option<string>, now: Time)
    : (r: (seq<Approval>, seq<Transaction>, seq<Account>, bool))
    requires ri < |records| && to != ApprovalStatus.Pending && UniqueKinds(configs)
    requires records[ri].transaction in TxIds(ts)
    requires forall t :: t in ts ==> t.account in AccountIds(accounts)
    ensures r.3 <==> CanBeProcessed(records[ri]) && !DecidedElsewhere(records, records[ri])
    ensures !r.3 ==> r.0 == records && r.1 == ts && r.2 == accounts
    ensures r.3 ==> r.0 == records[ri := records[ri].(status := to, comments := comments, approvedAt := Some(now))]
    ensures r.3 ==> (r.1, r.2) == Recompute(ts, accounts, r.0, configs, users, TxIndex(ts, records[ri].transaction).value, now)
    ensures TxIds(r.1) == TxIds(ts) && AccountIds(r.2) == AccountIds(accounts)
    ensures forall t :: t in r.1 ==> t.account in AccountIds(r.2)
  {
    var a := records[ri];
    var d := Decide(records, a, to, comments, now);
    if !d.1 then (records, ts, accounts, false)
    else
      var records2 := records[ri := d.0];
      var ti := TxIndex(ts, a.transaction).value;
      assert ts[ti] in ts;
      RecomputeKeepsKeys(ts, accounts, records2, configs, users, ti, now);
      var (ts2, as2) := Recompute(ts, accounts, records2, configs, users, ti, now);
      (records2, ts2, as2, true)
  }

  /** Some record of the transaction is REJECTED. */
  predicate Rejected(records: seq<Approval>, tx: TxId)
  {
    exists a :: a in records && a.transaction == tx && a.status == ApprovalStatus.Rejected
  }

  /**
   * As written, at the level of the tables: an approval after which a
   * deposit has enough approvals and no rejection executes it and credits
   * its account, whatever the transaction's status was before, EXECUTED
   * and CANCELLED included.
   */
  lemma CompletingApprovalCredits(records: seq<Approval>, ts: seq<Transaction>, accounts: seq<Account>,
                                  configs: seq<Config>, users: seq<User>, ri: nat, c: Option<string>, now: Time)
    requires UniqueKinds(configs)
    requires forall t :: t in ts ==> t.account in AccountIds(accounts)
    requires ri < |records| && records[ri].transaction in TxIds(ts)
    requires CanBeProcessed(records[ri]) && !DecidedElsewhere(records, records[ri])
    requires var t := ts[TxIndex(ts, records[ri].transaction).value];
             t.kind == DEPOSIT && !Rejected(records, t.id)
             && CountWith(RecordsOf(records, t.id), ApprovalStatus.Approved) + 1 >= RequiredApprovals(configs, t.kind)
    ensures var d := Decision(records, ts, accounts, configs, users, ri, ApprovalStatus.Approved, c, now);
            var ti := TxIndex(ts, records[ri].transaction).value;
            d.3 && d.0 == records[ri := records[ri].(status := ApprovalStatus.Approved, comments := c, approvedAt := Some(now))]
            && d.1 == ts[ti := ts[ti].(status := TxStatus.Executed, executedAt := Some(now))]
    ensures var d := Decision(records, ts, accounts, configs, users, ri, ApprovalStatus.Approved, c, now);
            var t := ts[TxIndex(ts, records[ri].transaction).value];
            var ai := AccountIndex(accounts, t.account).value;
            ai < |accounts| && d.2 == accounts[ai := Credit(accounts[ai], t.amount)]
  {
    var tx := records[ri].transaction;
    var ti := TxIndex(ts, tx).value;
    assert ts[ti] in ts;
    var b := records[ri].(status := ApprovalStatus.Approved, comments := c, approvedAt := Some(now));
    var records2 := records[ri := b];
    ApprovalAddsOne(records, ri, b);
    var d := Decision(records, ts, accounts, configs, users, ri, ApprovalStatus.Approved, c, now);
    assert d.3 && d.0 == records2;
    var rc := Recompute(ts, accounts, records2, configs, users, ti, now);
    assert d.1 == rc.0 && d.2 == rc.1;
    RecomputeCompleteDeposit(ts, accounts, records2, configs, users, ti, now);
  }

  /** Approving a PENDING record adds one approval to its transaction and no rejection. */
  lemma ApprovalAddsOne(records: seq<Approval>, ri: nat, b: Approval)
    requires ri < |records| && records[ri].status == ApprovalStatus.Pending
    requires b.transaction == records[ri].transaction && b.status == ApprovalStatus.Approved
    ensures Rejected(records[ri := b], b.transaction) <==> Rejected(records, b.transaction)
    ensures CountWith(RecordsOf(records[ri := b], b.transaction), ApprovalStatus.Approved)
            == CountWith(RecordsOf(records, b.transaction), ApprovalStatus.Approved) + 1
  {
    ApprovedCountGrows(records, ri, b, b.transaction);
    var records2 := records[ri := b];
    if Rejected(records2, b.transaction) {
      var a :| a in records2 && a.transaction == b.transaction && a.status == ApprovalStatus.Rejected;
      var k :| 0 <= k < |records2| && records2[k] == a;
      assert records[k] in records;
    }
    if Rejected(records, b.transaction) {
      var a :| a in records && a.transaction == b.transaction && a.status == ApprovalStatus.Rejected;
      var k :| 0 <= k < |records| && records[k] == a;
      assert records2[k] in records2;
    }
  }

  /** The recomputation of a complete, unrejected deposit executes it and credits its account. */
  lemma RecomputeCompleteDeposit(ts: seq<Transaction>, accounts: seq<Account>, records: seq<Approval>,
                                 configs: seq<Config>, users: seq<User>, ti: nat, now: Time)
    requires ti < |ts| && UniqueKinds(configs) && ts[ti].account in AccountIds(accounts)
    requires ts[ti].kind == DEPOSIT && !Rejected(records, ts[ti].id)
    requires CountWith(RecordsOf(records, ts[ti].id), ApprovalStatus.Approved) >= RequiredApprovals(configs, ts[ti].kind)
    ensures var ai := AccountIndex(accounts, ts[ti].account).value;
            Recompute(ts, accounts, records, configs, users, ti, now)
            == (ts[ti := ts[ti].(status := TxStatus.Executed, executedAt := Some(now))],
                accounts[ai := Credit(accounts[ai], ts[ti].amount)])
  {
    var p := ApprovalProgress(records, configs, users, ts[ti]);
    assert p.isComplete && !p.isRejected;
  }

  /**
   * As written: two approvals by different approvers of one deposit, the
   * first of which completes it, credit the account twice.
   */
  lemma TwoApprovalsCreditTwice(records: seq<Approval>, ts: seq<Transaction>, accounts: seq<Account>,
                                configs: seq<Config>, users: seq<User>, ri: nat, rj: nat,
                                c1: Option<string>, c2: Option<string>, now1: Time, now2: Time)
    requires UniqueKinds(configs)
    requires forall t :: t in ts ==> t.account in AccountIds(accounts)
    requires ri < |records| && rj < |records| && ri != rj
    requires records[ri].transaction in TxIds(ts) && records[rj].transaction == records[ri].transaction
    requires records[ri].approver != records[rj].approver
    requires CanBeProcessed(records[ri]) && !DecidedElsewhere(records, records[ri])
    requires CanBeProcessed(records[rj]) && !DecidedElsewhere(records, records[rj])
    requires var t := ts[TxIndex(ts, records[ri].transaction).value];
             t.kind == DEPOSIT && !Rejected(records, t.id)
             && CountWith(RecordsOf(records, t.id), ApprovalStatus.Approved) + 1 >= RequiredApprovals(configs, t.kind)
    ensures var d1 := Decision(records, ts, accounts, configs, users, ri, ApprovalStatus.Approved, c1, now1);
            var d2 := Decision(d1.0, d1.1, d1.2, configs, users, rj, ApprovalStatus.Approved, c2, now2);
            var ti := TxIndex(ts, records[ri].transaction).value;
            var ai := AccountIndex(accounts, ts[ti].account).value;
            d1.3 && d2.3 && ai < |accounts|
            && d2.2 == accounts[ai := Credit(Credit(accounts[ai], ts[ti].amount), ts[ti].amount)]
  {
    var tx := records[ri].transaction;
    var ti := TxIndex(ts, tx).value;
    var t := ts[ti];
    var ai := AccountIndex(accounts, t.account).value;
    var b1 := records[ri].(status := ApprovalStatus.Approved, comments := c1, approvedAt := Some(now1));
    CompletingApprovalCredits(records, ts, accounts, configs, users, ri, c1, now1);
    var d1 := Decision(records, ts, accounts, configs, users, ri, ApprovalStatus.Approved, c1, now1);
    assert d1.0 == records[ri := b1];
    assert d1.1[ti].amount == t.amount && d1.2[ai] == Credit(accounts[ai], t.amount);
    SecondApprovalStillCompletes(records, ts, accounts, configs, ri, rj, b1, d1.1, d1.2);
    CompletingApprovalCredits(d1.0, d1.1, d1.2, configs, users, rj, c2, now2);
    assert d1.2[ai := Credit(d1.2[ai], t.amount)]
           == accounts[ai := Credit(Credit(accounts[ai], t.amount), t.amount)];
  }

  /** The tables after the first approval still meet the conditions for the second to credit again. */
  lemma SecondApprovalStillCompletes(records: seq<Approval>, ts: seq<Transaction>, accounts: seq<Account>,
                                     configs: seq<Config>, ri: nat, rj: nat, b1: Approval,
                                     ts1: seq<Transaction>, accounts1: seq<Account>)
    requires UniqueKinds(configs)
    requires forall t :: t in ts ==> t.account in AccountIds(accounts)
    requires ri < |records| && rj < |records| && ri != rj
    requires records[ri].transaction in TxIds(ts) && records[rj].transaction == records[ri].transaction
    requires records[ri].approver != records[rj].approver
    requires CanBeProcessed(records[ri]) && CanBeProcessed(records[rj]) && !DecidedElsewhere(records, records[rj])
    requires b1 == records[ri].(status := ApprovalStatus.Approved, comments := b1.comments, approvedAt := b1.approvedAt)
    requires var t := ts[TxIndex(ts, records[ri].transaction).value];
             t.kind == DEPOSIT && !Rejected(records, t.id)
             && CountWith(RecordsOf(records, t.id), ApprovalStatus.Approved) + 1 >= RequiredApprovals(configs, t.kind)
    requires var ti := TxIndex(ts, records[ri].transaction).value;
             |ts1| == |ts| && (forall k :: 0 <= k < |ts| ==> ts1[k].id == ts[k].id && ts1[k].account == ts[k].account)
             && ts1[ti].kind == ts[ti].kind
    requires |accounts1| == |accounts| && forall k :: 0 <= k < |accounts| ==> accounts1[k].id == accounts[k].id
    ensures var records1 := records[ri := b1];
            var tx := records[ri].transaction;
            (forall t :: t in ts1 ==> t.account in AccountIds(accounts1))
            && tx in TxIds(ts1) && CanBeProcessed(records1[rj]) && !DecidedElsewhere(records1, records1[rj])
            && TxIndex(ts1, tx) == TxIndex(ts, tx)
            && AccountIndex(accounts1, ts[TxIndex(ts, tx).value].account) == AccountIndex(accounts, ts[TxIndex(ts, tx).value].account)
            && ts1[TxIndex(ts1, tx).value].kind == DEPOSIT && !Rejected(records1, tx)
            && CountWith(RecordsOf(records1, tx), ApprovalStatus.Approved) + 1 >= RequiredApprovals(configs, DEPOSIT)
  {
    var tx := records[ri].transaction;
    ApprovalAddsOne(records, ri, b1);
    SameTxIds(ts1, ts);
    SameAccountIds(accounts1, accounts);
    TxIndexSameIds(ts1, ts, tx);
    AccountIndexSameIds(accounts1, accounts, ts[TxIndex(ts, tx).value].account);
    forall t | t in ts1 ensures t.account in AccountIds(accounts1) {
      var k :| 0 <= k < |ts1| && ts1[k] == t;
      assert ts[k] in ts;
    }
  }

  // ---------------------------------------------------------------------------
  // Lookups and rows of the view operations

  /** `Transaction.objects.get(pk=id)`, or nothing. */
  function TxById(ts: seq<Transaction>, id: TxId): (r: Option<Transaction>)
    ensures r.Some? <==> TxIndex(ts, id).Some?
    ensures r.Some? ==> r.value == ts[TxIndex(ts, id).value] && r.value.id == id
  {
    match TxIndex(ts, id)
    case Some(i) => Some(ts[i])
    case None => None
  }

  /** `Account.objects.get(pk=id)`, or nothing. */
  function AccountById(accounts: seq<Account>, id: AccountId): (r: Option<Account>)
    ensures r.Some? <==> id in AccountIds(accounts)
    ensures r.Some? ==> r.value in accounts && r.value.id == id
  {
    match AccountIndex(accounts, id)
    case Some(i) => Some(accounts[i])
    case None => None
  }

  /** Position of the approval record with that primary key. */
  function RecordIndex(records: seq<Approval>, id: nat): (r: Option<nat>)
    ensures r.None? <==> forall k :: 0 <= k < |records| ==> records[k].id != id
    ensures r.Some? ==> r.value < |records| && records[r.value].id == id
  {
    if records == [] then None
    else if records[0].id == id then Some(0)
    else
      assert forall k :: 1 <= k < |records| ==> records[k] == records[1..][k - 1];
      match RecordIndex(records[1..], id)
      case None => None
      case Some(k) => Some(k + 1)
  }

  /** Position of the record `PendingRecord` finds: the user's first PENDING record on the transaction. */
  function PendingIndex(records: seq<Approval>, tx: TxId, user: UserId): (r: Option<nat>)
    ensures r.None? <==> PendingRecord(records, tx, user).None?
    ensures r.Some? ==> r.value < |records| && records[r.value] == PendingRecord(records, tx, user).value
  {
    if records == [] then None
    else if records[0].transaction == tx && records[0].approver == user && records[0].status == ApprovalStatus.Pending
    then Some(0)
    else
      match PendingIndex(records[1..], tx, user)
      case None => None
      case Some(k) => Some(k + 1)
  }

  /**
   * What `process_approval_view` looks up: the transaction, its account and
   * the user's PENDING record on it; nothing when either lookup fails.
   */
  function FindTarget(ts: seq<Transaction>, accounts: seq<Account>, records: seq<Approval>, tx: TxId, user: UserId)
    : (r: Option<Target>)
    requires forall t :: t in ts ==> t.account in AccountIds(accounts)
    ensures r.Some? <==> TxIndex(ts, tx).Some? && PendingRecord(records, tx, user).Some?
    ensures r.Some? ==> r.value.t == ts[TxIndex(ts, tx).value] && r.value.pending == PendingRecord(records, tx, user).value
                        && Some(r.value.acct) == AccountById(accounts, r.value.t.account)
  {
    match TxById(ts, tx)
    case None => None
    case Some(t) =>
      assert t in ts;
      match PendingRecord(records, tx, user)
      case None => None
      case Some(a) => Some(Target(t, AccountById(accounts, t.account).value, a))
  }

  /** The references in use, in table order. */
  function References(ts: seq<Transaction>): seq<string>
  {
    if ts == [] then [] else [ts[0].reference] + References(ts[1..])
  }

  /**
   * The row `Transaction.objects.create` saves: the validated fields, status
   * PENDING, not executed, and the reference `save` generates, which no
   * existing row uses.
   */
  function NewRow(id: TxId, n: NewTransaction, refs: seq<string>): (t: Transaction)
    ensures t.id == id && t.status == TxStatus.Pending && t.executedAt.None?
    ensures t.reference == NextReference(n.kind, refs) && t.reference !in refs
    ensures t.account == n.account && t.city == n.city && t.createdBy == n.createdBy && t.kind == n.kind
            && t.amount == n.amount && t.description == n.description && t.metadata == n.metadata
  {
    NextReferenceFresh(Prefix(n.kind), refs);
    ReferenceOnSave(Transaction(id, n.account, n.city, n.createdBy, n.kind, n.amount, n.description,
                                TxStatus.Pending, "", n.metadata, None), refs)
  }

  /**
   * The fields `create_transaction_view` passes to `create`: the form's
   * type, amount and description, the chosen account, the user's city, the
   * user as creator and no metadata.
   */
  function DraftRow(u: User, d: Draft, accounts: seq<Account>): NewTransaction
    requires d.account < |accounts| && u.city.Some?
  {
    NewTransaction(accounts[d.account].id, u.city.value, u.id, d.kind, d.amount, d.description, map[])
  }

  /**
   * What `create_request_approvals` answers on a new transaction and the
   * records it adds: the approvers resolved for its type, or the error
   * (a transaction with no records yet never meets a duplicate).
   */
  function SubmitOutcome(assignments: seq<Assignment>, configs: seq<Config>, users: seq<User>, kind: TxType,
                         tx: TxId, start: nat): (r: (Result<TxId, Refusal>, seq<Approval>))
    requires UniqueKinds(configs)
    ensures r.0.Ok? <==> ResolveApprovers(assignments, configs, users, kind).Ok?
    ensures r.0.Ok? ==> r.0.value == tx && r.1 == NewRecords(start, tx, ResolveApprovers(assignments, configs, users, kind).value)
    ensures r.0.Err? ==> r.1 == [] && r.0.error == ApprovalsFailed(ResolveApprovers(assignments, configs, users, kind).error)
  {
    match ResolveApprovers(assignments, configs, users, kind)
    case Ok(ids) => (Ok(tx), NewRecords(start, tx, ids))
    case Err(e) => (Err(ApprovalsFailed(e)), [])
  }

  /** The records of other transactions: what is left after the cascade of a transaction's deletion. */
  function WithoutTx(records: seq<Approval>, tx: TxId): (r: seq<Approval>)
    ensures forall a :: a in r <==> a in records && a.transaction != tx
  {
    if records == [] then []
    else
      var init, last := records[..|records| - 1], records[|records| - 1];
      assert records == init + [last];
      if last.transaction == tx then WithoutTx(init, tx) else WithoutTx(init, tx) + [last]
  }

  predicate IncreasingRecordIds(records: seq<Approval>)
  {
    forall i, j :: 0 <= i < j < |records| ==> records[i].id < records[j].id
  }

  /** The cascade keeps the order of the records it leaves. */
  lemma {:induction false} WithoutTxOrdered(records: seq<Approval>, tx: TxId)
    requires IncreasingRecordIds(records)
    ensures IncreasingRecordIds(WithoutTx(records, tx))
  {
    if records != [] {
      var init, last := records[..|records| - 1], records[|records| - 1];
      assert records == init + [last];
      WithoutTxOrdered(init, tx);
      var rest := WithoutTx(init, tx);
      if last.transaction != tx {
        var r := rest + [last];
        forall i, j | 0 <= i < j < |r| ensures r[i].id < r[j].id {
          if j == |rest| {
            assert r[i] == rest[i] && r[j] == last;
            assert rest[i] in rest;
            var k :| 0 <= k < |init| && init[k] == rest[i];
            assert records[k] == init[k];
            assert records[k].id < records[|records| - 1].id;
          } else {
            assert r[i] == rest[i] && r[j] == rest[j];
          }
        }
      }
    }
  }

  /** The cascade keeps one record per (transaction, approver). */
  lemma {:induction false} WithoutTxUnique(records: seq<Approval>, tx: TxId)
    requires UniquePairs(records)
    ensures UniquePairs(WithoutTx(records, tx))
  {
    if records != [] {
      var init, last := records[..|records| - 1], records[|records| - 1];
      assert records == init + [last];
      WithoutTxUnique(init, tx);
      var rest := WithoutTx(init, tx);
      if last.transaction != tx {
        var r := rest + [last];
        forall i, j | 0 <= i < j < |r|
          ensures !(r[i].transaction == r[j].transaction && r[i].approver == r[j].approver)
        {
          if j == |rest| {
            assert r[i] in init;
            var k :| 0 <= k < |init| && init[k] == r[i];
            assert records[k] == r[i];
          }
        }
      }
    }
  }

  class Wallet {
    var users: seq<User>
    var accounts: seq<Account>
    var transactions: seq<Transaction>
    var approvals: seq<Approval>
    var assignments: seq<Assignment>
    var configs: seq<Config>
    var nextUserId: nat
    var nextTxId: nat
    var nextApprovalId: nat
    var nextAssignmentId: nat

    predicate Valid()
      reads this
    {
      KeyedBelow(users, nextUserId)
      && AccountsValid(accounts)
      && TransactionsValid(transactions, nextTxId, accounts)
      && ApprovalsValid(approvals, nextApprovalId, transactions)
      && AssignmentsValid(assignments, nextAssignmentId)
      && UniqueKinds(configs)
    }

    /** A database holding the given users and accounts and nothing else. */
    constructor (users0: seq<User>, accounts0: seq<Account>)
      requires IncreasingIds(users0) && AccountsValid(accounts0)
      ensures Valid()
      ensures users == users0 && accounts == accounts0
      ensures transactions == [] && approvals == [] && assignments == [] && configs == []
    {
      users := users0;
      accounts := accounts0;
      transactions := [];
      approvals := [];
      assignments := [];
      configs := [];
      nextUserId := if users0 == [] then 0 else users0[|users0| - 1].id + 1;
      nextTxId := 0;
      nextApprovalId := 0;
      nextAssignmentId := 0;
    }

    // -------------------------------------------------------------------------
    // Account.deposit / withdraw

    /** `deposit(amount)`: the balance of the account at `i` grows by exactly `amount`. */
    method Deposit(i: nat, amount: Cents)
      requires Valid() && i < |accounts|
      modifies this`accounts
      ensures Valid()
      ensures accounts == old(accounts)[i := old(accounts)[i].(balance := old(accounts)[i].balance + amount)]
    {
      SameAccountIds(accounts, accounts[i := accounts[i].(balance := accounts[i].balance + amount)]);
      accounts := accounts[i := accounts[i].(balance := accounts[i].balance + amount)];
    }

    /**
     * `withdraw(amount)`: succeeds exactly when `can_withdraw` holds, and then
     * the balance drops by exactly `amount`; otherwise nothing changes.
     */
    method Withdraw(i: nat, amount: Cents) returns (ok: bool)
      requires Valid() && i < |accounts|
      modifies this`accounts
      ensures Valid()
      ensures ok <==> CanWithdraw(old(accounts)[i], amount)
      ensures ok ==> accounts == old(accounts)[i := old(accounts)[i].(balance := old(accounts)[i].balance - amount)]
      ensures !ok ==> accounts == old(accounts)
    {
      if CanWithdraw(accounts[i], amount) {
        SameAccountIds(accounts, accounts[i := accounts[i].(balance := accounts[i].balance - amount)]);
        accounts := accounts[i := accounts[i].(balance := accounts[i].balance - amount)];
        ok := true;
      } else {
        ok := false;
      }
    }

    // -------------------------------------------------------------------------
    // Transaction.execute / cancel

    /**
     * `execute()` on the transaction at `ti` and its account, as
     * `Transactions.Execute` describes it.
     */
    method Execute(ti: nat, now: Time) returns (ok: bool)
      requires Valid() && ti < |transactions|
      modifies this`transactions, this`accounts
      ensures Valid()
      ensures var t := old(transactions)[ti];
              var ai := AccountIndex(old(accounts), t.account).value;
              var e := Transactions.Execute(t, old(accounts)[ai], now);
              ok == e.2 && transactions == old(transactions)[ti := e.0] && accounts == old(accounts)[ai := e.1]
    {
      var t := transactions[ti];
      assert t in transactions;
      var ai := AccountIndex(accounts, t.account).value;
      if !CanBeExecuted(t) {
        return false;
      }
      if t.kind == DEPOSIT {
        Deposit(ai, t.amount);
      } else {
        var withdrawn := Withdraw(ai, t.amount);
        if !withdrawn {
          return false;
        }
      }
      UpdateTxKeepsValid(transactions, nextTxId, accounts, approvals, nextApprovalId, ti,
                         t.(status := TxStatus.Executed, executedAt := Some(now)));
      transactions := transactions[ti := t.(status := TxStatus.Executed, executedAt := Some(now))];
      ok := true;
    }

    /** `cancel(reason)` on the transaction at `ti`, as `Transactions.Cancel` describes it. */
    method Cancel(ti: nat, reason: Option<string>) returns (ok: bool)
      requires Valid() && ti < |transactions|
      modifies this`transactions
      ensures Valid()
      ensures var c := Transactions.Cancel(old(transactions)[ti], reason);
              ok == c.1 && transactions == old(transactions)[ti := c.0]
    {
      var t := transactions[ti];
      assert t in transactions;
      if !CanBeCancelled(t) {
        return false;
      }
      var t2 := t.(status := TxStatus.Cancelled);
      if reason.Some? && reason.value != "" {
        t2 := t2.(metadata := t.metadata[CancellationReasonKey := reason.value]);
      }
      UpdateTxKeepsValid(transactions, nextTxId, accounts, approvals, nextApprovalId, ti, t2);
      transactions := transactions[ti := t2];
      ok := true;
    }

    // -------------------------------------------------------------------------
    // check_transaction_status, approve, reject

    /**
     * `check_transaction_status(transaction)`: the status is written from the
     * approval progress, and a complete transaction is executed, whatever its
     * status was before (`Workflow.CheckStatus`, as written).
     */
    method CheckTransactionStatus(ti: nat, now: Time) returns (status: TxStatus)
      requires Valid() && ti < |transactions|
      modifies this`transactions, this`accounts
      ensures Valid()
      ensures (transactions, accounts)
              == Recompute(old(transactions), old(accounts), approvals, configs, users, ti, now)
      ensures status == transactions[ti].status
    {
      var t := transactions[ti];
      assert t in transactions;
      ghost var ts0, as0 := transactions, accounts;
      ghost var ai := AccountIndex(accounts, t.account).value;
      var progress := ApprovalProgress(approvals, configs, users, t);
      ghost var expected := CheckStatus(t, accounts[ai], progress, now);
      assert Recompute(ts0, as0, approvals, configs, users, ti, now) == (ts0[ti := expected.0], as0[ai := expected.1]);
      assert as0[ai := as0[ai]] == as0;
      if progress.isRejected {
        SetStatus(ti, TxStatus.Rejected);
      } else if progress.isComplete {
        ApproveAndExecute(ti, now);
      } else {
        SetStatus(ti, TxStatus.Pending);
      }
      status := transactions[ti].status;
    }

    /** Lines 75-80 of `check_transaction_status`: APPROVED, then `execute()`, then EXECUTED on success. */
    method ApproveAndExecute(ti: nat, now: Time)
      requires Valid() && ti < |transactions|
      modifies this`transactions, this`accounts
      ensures Valid()
      ensures var t := old(transactions)[ti];
              var ai := AccountIndex(old(accounts), t.account).value;
              var e := Transactions.Execute(t.(status := TxStatus.Approved), old(accounts)[ai], now);
              transactions == old(transactions)[ti := e.0] && accounts == old(accounts)[ai := e.1]
    {
      SetStatus(ti, TxStatus.Approved);
      var executed := Execute(ti, now);
      if executed {
        SetStatus(ti, TxStatus.Executed);
      }
    }

    /** `transaction.status = s` followed by a save of that field. */
    method SetStatus(ti: nat, s: TxStatus)
      requires Valid() && ti < |transactions|
      modifies this`transactions
      ensures Valid()
      ensures transactions == old(transactions)[ti := old(transactions)[ti].(status := s)]
    {
      assert transactions[ti] in transactions;
      UpdateTxKeepsValid(transactions, nextTxId, accounts, approvals, nextApprovalId, ti, transactions[ti].(status := s));
      transactions := transactions[ti := transactions[ti].(status := s)];
    }

    /**
     * The shared body of `approve` and `reject`: a PENDING record with no
     * other decided record of the same pair takes the decision, and then the
     * transaction's status is recomputed from the updated records.
     */
    method Process(ri: nat, to: ApprovalStatus, comments: Option<string>, now: Time) returns (ok: bool)
      requires Valid() && ri < |approvals| && to != ApprovalStatus.Pending
      modifies this`approvals, this`transactions, this`accounts
      ensures Valid()
      ensures (approvals, transactions, accounts, ok)
              == Decision(old(approvals), old(transactions), old(accounts), configs, users, ri, to, comments, now)
    {
      var a := approvals[ri];
      assert a in approvals;
      if a.status != ApprovalStatus.Pending {
        return false;
      }
      if DecidedElsewhere(approvals, a) {
        return false;
      }
      var a2 := a.(status := to, comments := comments, approvedAt := Some(now));
      DecideKeepsApprovalsValid(approvals, nextApprovalId, transactions, ri, a2);
      approvals := approvals[ri := a2];
      var ti := TxIndex(transactions, a.transaction).value;
      var _ := CheckTransactionStatus(ti, now);
      ok := true;
    }

    /** `approve(comments)` on the record at `ri`. */
    method Approve(ri: nat, comments: Option<string>, now: Time) returns (ok: bool)
      requires Valid() && ri < |approvals|
      modifies this`approvals, this`transactions, this`accounts
      ensures Valid()
      ensures (approvals, transactions, accounts, ok)
              == Decision(old(approvals), old(transactions), old(accounts), configs, users, ri, ApprovalStatus.Approved, comments, now)
    {
      ok := Process(ri, ApprovalStatus.Approved, comments, now);
    }

    /** `reject(comments)` on the record at `ri`. */
    method Reject(ri: nat, comments: Option<string>, now: Time) returns (ok: bool)
      requires Valid() && ri < |approvals|
      modifies this`approvals, this`transactions, this`accounts
      ensures Valid()
      ensures (approvals, transactions, accounts, ok)
              == Decision(old(approvals), old(transactions), old(accounts), configs, users, ri, ApprovalStatus.Rejected, comments, now)
    {
      ok := Process(ri, ApprovalStatus.Rejected, comments, now);
    }

    // -------------------------------------------------------------------------
    // create_request_approvals

    /**
     * `create_request_approvals(transaction)`: resolves the approvers, then
     * inserts one PENDING record per approver in one statement; on any error
     * no record is inserted.
     */
    method CreateRequestApprovals(ti: nat) returns (r: Result<seq<Approval>, CreateError>)
      requires Valid() && ti < |transactions|
      modifies this`approvals, this`nextApprovalId
      ensures Valid()
      ensures r == RequestOutcome(old(approvals), assignments, configs, users, transactions[ti], old(nextApprovalId))
      ensures approvals == old(approvals) + (if r.Ok? then r.value else [])
    {
      var t := transactions[ti];
      var resolved := SelectApprovers(t.kind);
      if resolved.Err? {
        return Err(resolved.error);
      }
      var approvers := resolved.value;
      ResolvedDistinct(assignments, configs, users, t.kind);
      if HasRecordFor(approvals, t.id, approvers) {
        return Err(DuplicateRecord);
      }
      assert t in transactions;
      var records := InsertRecords(t.id, approvers);
      r := Ok(records);
    }

    /** The `bulk_create` of line 144: the new records get the next primary keys. */
    method InsertRecords(tx: TxId, ids: seq<UserId>) returns (records: seq<Approval>)
      requires Valid() && tx in TxIds(transactions)
      requires DistinctIds(ids) && !HasRecordFor(approvals, tx, ids)
      modifies this`approvals, this`nextApprovalId
      ensures Valid()
      ensures records == NewRecords(old(nextApprovalId), tx, ids) && approvals == old(approvals) + records
    {
      records := BuildRecords(nextApprovalId, tx, ids);
      InsertKeepsApprovalsValid(approvals, nextApprovalId, transactions, tx, ids);
      approvals := approvals + records;
      nextApprovalId := nextApprovalId + |records|;
    }

    /**
     * The approver selection of `create_request_approvals` (lines 97-134),
     * run against the current tables with its two loops.
     */
    method SelectApprovers(kind: TxType) returns (r: Result<seq<UserId>, CreateError>)
      requires Valid()
      ensures r == ResolveApprovers(assignments, configs, users, kind)
    {
      var required := RequiredApprovals(configs, kind);
      var primary := ApproverIds(ApproversFor(assignments, users, kind, true));
      var pool := Ids(Candidates(users, set id | id in primary));
      var approvers := primary;
      if |approvers| < required {
        approvers := FillApprovers(primary, pool, required);
      }
      assert approvers == Padded(primary, pool, required);
      if |approvers| < required {
        r := RoleFallbackLoop(users, DefaultRequired(kind));
      } else {
        r := Ok(approvers);
      }
    }
    // -------------------------------------------------------------------------
    // The administration views and init_approval_config

    /** Appends an active assignment of a pair that has none, under the next primary key. */
    method AddAssignment(kind: TxType, id: UserId)
      requires Valid() && !AdminViews.HasPair(assignments, kind, id)
      modifies this`assignments, this`nextAssignmentId
      ensures Valid()
      ensures assignments == old(assignments) + [Assignment(old(nextAssignmentId), kind, id, true)]
      ensures nextAssignmentId == old(nextAssignmentId) + 1
    {
      var row := Assignment(nextAssignmentId, kind, id, true);
      AppendKeepsAssignmentsValid(assignments, nextAssignmentId, row);
      assignments := assignments + [row];
      nextAssignmentId := nextAssignmentId + 1;
    }

    /** Lines 77-93 of `assign_approver_view`: the pair's row is reactivated, or created active. */
    method Assign(kind: TxType, id: UserId)
      requires Valid()
      modifies this`assignments, this`nextAssignmentId
      ensures Valid()
      ensures assignments == AdminViews.Assigned(old(assignments), kind, id, old(nextAssignmentId))
      ensures nextAssignmentId == old(nextAssignmentId) + |assignments| - |old(assignments)|
    {
      match AdminViews.PairIndex(assignments, kind, id) {
        case Some(i) =>
          FlagKeepsAssignmentsValid(assignments, nextAssignmentId, i, true);
          assignments := assignments[i := assignments[i].(isActive := true)];
        case None =>
          AddAssignment(kind, id);
      }
    }

    /** The configuration of `kind` takes the type's active assignment count, which is returned. */
    method ResyncConfig(kind: TxType) returns (count: nat)
      requires Valid()
      modifies this`configs
      ensures Valid()
      ensures configs == AdminViews.Resync(old(configs), assignments, kind) && count == ActiveCount(assignments, kind)
    {
      configs := AdminViews.Resync(configs, assignments, kind);
      count := ActiveCount(assignments, kind);
    }

    /**
     * `assign_approver_view`: after the field and user checks, the pair's
     * row is reactivated or created, and the type's configuration is resynced
     * to its active count, which is returned.
     */
    method AssignApprover(kind: Option<string>, approverId: Option<UserId>) returns (r: Result<nat, AdminViews.AdminError>)
      requires Valid()
      modifies this`assignments, this`nextAssignmentId, this`configs
      ensures Valid()
      ensures var c := AdminViews.AssignCheck(kind, approverId, users);
              (c.Err? ==> r == Err(c.error) && assignments == old(assignments) && configs == old(configs))
              && (c.Ok? ==> assignments == AdminViews.Assigned(old(assignments), c.value.0, c.value.1, old(nextAssignmentId))
                            && configs == AdminViews.Resync(old(configs), assignments, c.value.0)
                            && r == Ok(ActiveCount(assignments, c.value.0)))
      ensures nextAssignmentId == old(nextAssignmentId) + |assignments| - |old(assignments)|
    {
      var c := AdminViews.AssignCheck(kind, approverId, users);
      if c.Err? {
        return Err(c.error);
      }
      var k, id := c.value.0, c.value.1;
      Assign(k, id);
      var count := ResyncConfig(k);
      r := Ok(count);
    }

    /**
     * `remove_approver_view`: the named row is deleted and its type's
     * configuration resynced; a missing id or an unknown row changes nothing.
     */
    method RemoveApprover(id: Option<nat>) returns (r: Result<nat, AdminViews.AdminError>)
      requires Valid()
      modifies this`assignments, this`configs
      ensures Valid()
      ensures id.None? ==> r == Err(AdminViews.MissingFields)
      ensures id.Some? && AdminViews.AssignmentIndex(old(assignments), id.value).None? ==> r == Err(AdminViews.NotFound)
      ensures r.Err? ==> assignments == old(assignments) && configs == old(configs)
      ensures r.Ok? <==> id.Some? && AdminViews.AssignmentIndex(old(assignments), id.value).Some?
      ensures r.Ok? ==> var i := AdminViews.AssignmentIndex(old(assignments), id.value).value;
                        var kind := old(assignments)[i].kind;
                        assignments == AdminViews.Removed(old(assignments), i)
                        && configs == AdminViews.Resync(old(configs), assignments, kind)
                        && r.value == ActiveCount(assignments, kind)
    {
      if id.None? {
        return Err(AdminViews.MissingFields);
      }
      var found := AdminViews.AssignmentIndex(assignments, id.value);
      if found.None? {
        return Err(AdminViews.NotFound);
      }
      var i := found.value;
      var kind := assignments[i].kind;
      RemovedKeepsAssignmentsValid(assignments, nextAssignmentId, i);
      assignments := AdminViews.Removed(assignments, i);
      var count := ResyncConfig(kind);
      r := Ok(count);
    }

    /**
     * `toggle_approver_status_view`: the named row's `is_active` is flipped
     * and its type's configuration resynced.
     */
    method ToggleApproverStatus(id: Option<nat>) returns (r: Result<nat, AdminViews.AdminError>)
      requires Valid()
      modifies this`assignments, this`configs
      ensures Valid()
      ensures id.None? ==> r == Err(AdminViews.MissingFields)
      ensures id.Some? && AdminViews.AssignmentIndex(old(assignments), id.value).None? ==> r == Err(AdminViews.NotFound)
      ensures r.Err? ==> assignments == old(assignments) && configs == old(configs)
      ensures r.Ok? <==> id.Some? && AdminViews.AssignmentIndex(old(assignments), id.value).Some?
      ensures r.Ok? ==> var i := AdminViews.AssignmentIndex(old(assignments), id.value).value;
                        var kind := old(assignments)[i].kind;
                        assignments == AdminViews.Toggled(old(assignments), i)
                        && configs == AdminViews.Resync(old(configs), assignments, kind)
                        && r.value == ActiveCount(assignments, kind)
    {
      if id.None? {
        return Err(AdminViews.MissingFields);
      }
      var found := AdminViews.AssignmentIndex(assignments, id.value);
      if found.None? {
        return Err(AdminViews.NotFound);
      }
      var i := found.value;
      var kind := assignments[i].kind;
      FlagKeepsAssignmentsValid(assignments, nextAssignmentId, i, !assignments[i].isActive);
      assignments := AdminViews.Toggled(assignments, i);
      var count := ResyncConfig(kind);
      r := Ok(count);
    }

    /**
     * `update_approval_config_view`: a count accepted by the checks is
     * written to the type's configuration row, created when missing.
     */
    method UpdateApprovalConfig(kind: Option<string>, required: Option<int>) returns (r: Result<nat, AdminViews.AdminError>)
      requires Valid()
      modifies this`configs
      ensures Valid()
      ensures var c := AdminViews.UpdateConfigCheck(kind, required);
              (c.Err? ==> r == Err(c.error) && configs == old(configs))
              && (c.Ok? ==> r == Ok(c.value.1) && configs == SetRequired(old(configs), c.value.0, c.value.1))
    {
      var c := AdminViews.UpdateConfigCheck(kind, required);
      if c.Err? {
        return Err(c.error);
      }
      configs := SetRequired(configs, c.value.0, c.value.1);
      r := Ok(c.value.1);
    }

    /** `init_approval_config`: DEPOSIT, then WITHDRAWAL, resynced to their active counts. */
    method InitApprovalConfig()
      requires Valid()
      modifies this`configs
      ensures Valid()
      ensures configs == AdminViews.InitConfigs(old(configs), assignments)
    {
      configs := AdminViews.Resync(configs, assignments, DEPOSIT);
      configs := AdminViews.Resync(configs, assignments, WITHDRAWAL);
    }

    /**
     * `ApproverAssignment.ensure_approver_assignments`: for DEPOSIT and then
     * WITHDRAWAL, every active user with an approver role gets a row of the
     * type unless the pair already has one. Existing rows are never touched,
     * so an inactive one stays inactive; the rows added are active, and
     * nothing is added when every pair is already there.
     */
    method EnsureApproverAssignments()
      requires Valid()
      modifies this`assignments, this`nextAssignmentId
      ensures Valid()
      ensures |assignments| >= |old(assignments)| && assignments[..|old(assignments)|] == old(assignments)
      ensures forall u :: u in Candidates(users, {}) ==>
                AdminViews.HasPair(assignments, DEPOSIT, u.id) && AdminViews.HasPair(assignments, WITHDRAWAL, u.id)
      ensures forall k :: |old(assignments)| <= k < |assignments| ==>
                assignments[k].isActive && assignments[k].kind in [DEPOSIT, WITHDRAWAL]
                && assignments[k].approver in Ids(Candidates(users, {}))
      ensures (forall u :: u in Candidates(users, {}) ==>
                 AdminViews.HasPair(old(assignments), DEPOSIT, u.id) && AdminViews.HasPair(old(assignments), WITHDRAWAL, u.id))
              ==> assignments == old(assignments)
      ensures nextAssignmentId == old(nextAssignmentId) + |assignments| - |old(assignments)|
    {
      var rows, next := EnsureAssignments(assignments, nextAssignmentId, Candidates(users, {}));
      assignments, nextAssignmentId := rows, next;
    }

    // -------------------------------------------------------------------------
    // User.ensure_single_user_per_role

    /**
     * `ensure_single_user_per_role`: the passes of `EnsureRoles` over
     * `ROLE_CHOICES`, in order; the first default user whose email is taken
     * stops the loop with that role, and the earlier passes stay written.
     */
    method EnsureSingleUserPerRole() returns (failed: Option<Role>)
      requires Valid()
      modifies this`users, this`nextUserId
      ensures Valid()
      ensures EnsureRoles(old(users), old(nextUserId), RoleChoices) == RoleSync(users, nextUserId, failed)
    {
      failed := SyncUsers(RoleChoices);
    }

    /** The passes of `EnsureRoles` over `roles`, written back to the user table and its key counter. */
    method SyncUsers(roles: seq<Role>) returns (failed: Option<Role>)
      requires Valid()
      modifies this`users, this`nextUserId
      ensures Valid()
      ensures EnsureRoles(old(users), old(nextUserId), roles) == RoleSync(users, nextUserId, failed)
    {
      users, nextUserId, failed := SyncRoles(users, nextUserId, roles);
    }

    // -------------------------------------------------------------------------
    // Creating a transaction: the API view and the dashboard form

    /**
     * `Transaction.objects.create(...)`: `save` generates the reference from
     * the references in use, and the row goes in under the next primary key.
     */
    method SaveTransaction(n: NewTransaction) returns (ti: nat)
      requires Valid() && n.account in AccountIds(accounts)
      modifies this`transactions, this`nextTxId
      ensures Valid()
      ensures ti == |old(transactions)| && nextTxId == old(nextTxId) + 1
      ensures transactions == old(transactions) + [NewRow(old(nextTxId), n, References(old(transactions)))]
    {
      var t := BuildRow(nextTxId, n, References(transactions));
      ti := |transactions|;
      AppendRow(t);
    }

    /** The insert itself: the row goes in last and the key counter moves past it. */
    method AppendRow(t: Transaction)
      requires Valid() && t.id == nextTxId && t.account in AccountIds(accounts)
      modifies this`transactions, this`nextTxId
      ensures Valid()
      ensures transactions == old(transactions) + [t] && nextTxId == old(nextTxId) + 1
    {
      AppendKeepsValid(transactions, approvals, nextTxId, nextApprovalId, accounts, t);
      transactions := transactions + [t];
      nextTxId := nextTxId + 1;
    }

    /**
     * What both creation views do once their checks pass: save the
     * transaction, then `create_request_approvals`; when that raises, the
     * saved transaction stays without records and the error is answered.
     */
    method Submit(n: NewTransaction) returns (r: Result<TxId, Refusal>)
      requires Valid() && n.account in AccountIds(accounts)
      modifies this`transactions, this`nextTxId, this`approvals, this`nextApprovalId
      ensures Valid()
      ensures transactions == old(transactions) + [NewRow(old(nextTxId), n, References(old(transactions)))]
      ensures var o := SubmitOutcome(assignments, configs, users, n.kind, old(nextTxId), old(nextApprovalId));
              r == o.0 && approvals == old(approvals) + o.1
    {
      NoRecordsForNextTx(approvals, nextApprovalId, transactions, nextTxId, accounts);
      var ti := SaveTransaction(n);
      var tx := transactions[ti].id;
      FreshRequestOutcome(approvals, assignments, configs, users, transactions[ti], nextApprovalId);
      var created := CreateRequestApprovals(ti);
      if created.Ok? {
        r := Ok(tx);
      } else {
        r := Err(ApprovalsFailed(created.error));
      }
    }

    /**
     * `TransactionListView.create`: the role check and the serializer
     * (`account` names the account by primary key); a transaction that
     * passes is submitted.
     */
    method SubmitFromApi(u: User, accountId: AccountId, kind: string, amount: Cents, description: string,
                         metadata: map<string, string>) returns (r: Result<TxId, Refusal>)
      requires Valid()
      modifies this`transactions, this`nextTxId, this`approvals, this`nextApprovalId
      ensures Valid()
      ensures match ApiCreateGate(u, AccountById(accounts, accountId), kind, amount, description, metadata)
              case Err(e) => r == Err(e) && transactions == old(transactions) && approvals == old(approvals)
              case Ok(n) =>
                var o := SubmitOutcome(assignments, configs, users, n.kind, old(nextTxId), old(nextApprovalId));
                transactions == old(transactions) + [NewRow(old(nextTxId), n, References(old(transactions)))]
                && r == o.0 && approvals == old(approvals) + o.1
    {
      var gate := ApiCreateGate(u, AccountById(accounts, accountId), kind, amount, description, metadata);
      if gate.Err? {
        return Err(gate.error);
      }
      r := Submit(gate.value);
    }

    /**
     * The POST branch of `create_transaction_view`: the form checks, then a
     * transaction on the newest account of the user's city is submitted.
     */
    method SubmitFromDashboard(u: User, kind: Option<string>, amount: Option<string>, description: Option<string>)
      returns (r: Result<TxId, Refusal>)
      requires Valid()
      modifies this`transactions, this`nextTxId, this`approvals, this`nextApprovalId
      ensures Valid()
      ensures match CreateGate(u, kind, amount, description, accounts)
              case Err(e) => r == Err(e) && transactions == old(transactions) && approvals == old(approvals)
              case Ok(d) =>
                var n := DraftRow(u, d, accounts);
                var o := SubmitOutcome(assignments, configs, users, d.kind, old(nextTxId), old(nextApprovalId));
                transactions == old(transactions) + [NewRow(old(nextTxId), n, References(old(transactions)))]
                && r == o.0 && approvals == old(approvals) + o.1
    {
      var gate := CreateGate(u, kind, amount, description, accounts);
      if gate.Err? {
        return Err(gate.error);
      }
      var n := DraftRow(u, gate.value, accounts);
      assert accounts[gate.value.account] in accounts;
      r := Submit(n);
    }

    // -------------------------------------------------------------------------
    // TransactionDetailView.update / destroy, cancel_transaction

    /** `TransactionDetailView.update`: the row takes the fields the update serializer accepts. */
    method UpdateTransaction(u: User, id: TxId, description: Option<string>, metadata: Option<map<string, string>>,
                             partial: bool)
      returns (r: Result<Transaction, Refusal>)
      requires Valid()
      modifies this`transactions
      ensures Valid()
      ensures r == UpdateGate(u, TxById(old(transactions), id), approvals, description, metadata, partial)
      ensures r.Ok? ==> transactions == old(transactions)[TxIndex(old(transactions), id).value := r.value]
      ensures r.Err? ==> transactions == old(transactions)
    {
      r := UpdateGate(u, TxById(transactions, id), approvals, description, metadata, partial);
      if r.Ok? {
        var i := TxIndex(transactions, id).value;
        assert transactions[i] in transactions;
        SameTxIds(transactions, transactions[i := r.value]);
        transactions := transactions[i := r.value];
      }
    }

    /**
     * `TransactionDetailView.destroy`: a visible PENDING transaction is
     * deleted, and its approval records with it (the foreign key cascades).
     */
    method DestroyTransaction(u: User, id: TxId) returns (r: Result<Transaction, Refusal>)
      requires Valid()
      modifies this`transactions, this`approvals
      ensures Valid()
      ensures r == DestroyGate(u, TxById(old(transactions), id), old(approvals))
      ensures r.Ok? ==> var i := TxIndex(old(transactions), id).value;
                        transactions == old(transactions)[..i] + old(transactions)[i + 1..]
                        && approvals == WithoutTx(old(approvals), id)
      ensures r.Err? ==> transactions == old(transactions) && approvals == old(approvals)
    {
      r := DestroyGate(u, TxById(transactions, id), approvals);
      if r.Ok? {
        var i := TxIndex(transactions, id).value;
        RemoveKeepsValid(transactions, approvals, nextTxId, nextApprovalId, accounts, i);
        transactions := transactions[..i] + transactions[i + 1..];
        approvals := WithoutTx(approvals, id);
      }
    }

    /**
     * `cancel_transaction`: once the checks pass, `cancel` runs with the
     * reason given, or `No reason provided`, and it always succeeds then.
     */
    method CancelTransaction(u: User, id: TxId, reason: Option<string>) returns (r: Result<Transaction, Refusal>)
      requires Valid()
      modifies this`transactions
      ensures Valid()
      ensures var g := CancelGate(u, TxById(old(transactions), id), approvals, reason);
              (g.Err? ==> r == g && transactions == old(transactions))
              && (g.Ok? ==> var i := TxIndex(old(transactions), id).value;
                            var c := Transactions.Cancel(old(transactions)[i], Some(CancelReason(reason)));
                            c.1 && r == Ok(c.0) && transactions == old(transactions)[i := c.0])
    {
      var g := CancelGate(u, TxById(transactions, id), approvals, reason);
      if g.Err? {
        return g;
      }
      var i := TxIndex(transactions, id).value;
      var cancelled := Cancel(i, Some(CancelReason(reason)));
      r := Ok(transactions[i]);
    }

    // -------------------------------------------------------------------------
    // The decision views

    /**
     * `RequestApprovalView.update` on the record with primary key
     * `approvalId`: the checks of `RequestDecisionGate`, then `approve` or
     * `reject` with the comments. Once the checks pass the decision always
     * goes through: the user has no decided record on the transaction, so no
     * other record of the pair is decided.
     */
    method RequestApprovalUpdate(u: User, approvalId: nat, action: Option<string>, comments: string, now: Time)
      returns (r: Result<ApprovalStatus, Refusal>)
      requires Valid()
      modifies this`approvals, this`transactions, this`accounts
      ensures Valid()
      ensures RecordIndex(old(approvals), approvalId).None? ==>
                r == Err(NotFound) && approvals == old(approvals) && transactions == old(transactions) && accounts == old(accounts)
      ensures RecordIndex(old(approvals), approvalId).Some? ==>
                var ri := RecordIndex(old(approvals), approvalId).value;
                var a := old(approvals)[ri];
                var t := TxById(old(transactions), a.transaction);
                t.Some? && AccountById(old(accounts), t.value.account).Some?
                && var g := RequestDecisionGate(u, a, old(approvals), action, t.value, AccountById(old(accounts), t.value.account).value);
                   r == g
                   && (g.Err? ==> approvals == old(approvals) && transactions == old(transactions) && accounts == old(accounts))
                   && (g.Ok? ==> (approvals, transactions, accounts, true)
                                 == Decision(old(approvals), old(transactions), old(accounts), configs, users, ri, g.value, Some(comments), now))
    {
      var found := RecordIndex(approvals, approvalId);
      if found.None? {
        return Err(NotFound);
      }
      var ri := found.value;
      var a := approvals[ri];
      assert a in approvals;
      var t := TxById(transactions, a.transaction).value;
      assert t in transactions;
      var acct := AccountById(accounts, t.account).value;
      r := RequestDecisionGate(u, a, approvals, action, t, acct);
      if r.Err? {
        return;
      }
      forall k | 0 <= k < |approvals| && approvals[k].transaction == a.transaction && approvals[k].approver == u.id
        ensures !IsDecided(approvals[k])
      {
        assert approvals[k] in approvals;
      }
      var ok := Process(ri, r.value, Some(comments), now);
      if !ok {
        r := Err(DecisionFailed);
      }
    }

    /**
     * `process_approval_view` on transaction `txId`: the checks of
     * `ProcessGate` on the user's PENDING record, then `approve` or `reject`
     * with the comments. A record of the user is the only one of its pair,
     * so the decision always goes through once the checks pass.
     */
    method ProcessApproval(u: User, isPost: bool, txId: TxId, action: Option<string>, comments: string, now: Time)
      returns (r: Result<ApprovalStatus, Refusal>)
      requires Valid()
      modifies this`approvals, this`transactions, this`accounts
      ensures Valid()
      ensures var g := ProcessGate(u, isPost, FindTarget(old(transactions), old(accounts), old(approvals), txId, u.id), action);
              r == g
              && (g.Err? ==> approvals == old(approvals) && transactions == old(transactions) && accounts == old(accounts))
              && (g.Ok? ==> var ri := PendingIndex(old(approvals), txId, u.id).value;
                            (approvals, transactions, accounts, true)
                            == Decision(old(approvals), old(transactions), old(accounts), configs, users, ri, g.value, Some(comments), now))
    {
      var found := FindTarget(transactions, accounts, approvals, txId, u.id);
      r := ProcessGate(u, isPost, found, action);
      if r.Err? {
        return;
      }
      var ri := PendingIndex(approvals, txId, u.id).value;
      UniqueMeansNotDecidedElsewhere(approvals, ri);
      var ok := Process(ri, r.value, Some(comments), now);
      if !ok {
        r := Err(DecisionFailed);
      }
    }
  }

  /** The transactions without the one at `i`, in order. */
  lemma RemoveTxKeepsOrder(ts: seq<Transaction>, nextTx: nat, accounts: seq<Account>, i: nat)
    requires i < |ts| && TransactionsValid(ts, nextTx, accounts)
    ensures TransactionsValid(ts[..i] + ts[i + 1..], nextTx, accounts)
    ensures forall k :: 0 <= k < |ts| && k != i ==> ts[k] in ts[..i] + ts[i + 1..]
  {
    var ts2 := ts[..i] + ts[i + 1..];
    assert forall k :: 0 <= k < |ts2| ==> ts2[k] == (if k < i then ts[k] else ts[k + 1]);
    forall k | 0 <= k < |ts| && k != i ensures ts[k] in ts2 {
      if k < i {
        assert ts2[k] == ts[k];
      } else {
        assert ts2[k - 1] == ts[k];
      }
    }
    forall t | t in ts2 ensures t in ts {
      var k :| 0 <= k < |ts2| && ts2[k] == t;
    }
  }

  /**
   * Deleting the transaction at `i` together with its records keeps the
   * tables valid: every record left names a transaction that remains.
   */
  lemma RemoveKeepsValid(ts: seq<Transaction>, records: seq<Approval>, nextTx: nat, nextRec: nat,
                         accounts: seq<Account>, i: nat)
    requires i < |ts| && TransactionsValid(ts, nextTx, accounts) && ApprovalsValid(records, nextRec, ts)
    ensures TransactionsValid(ts[..i] + ts[i + 1..], nextTx, accounts)
    ensures ApprovalsValid(WithoutTx(records, ts[i].id), nextRec, ts[..i] + ts[i + 1..])
  {
    var ts2 := ts[..i] + ts[i + 1..];
    RemoveTxKeepsOrder(ts, nextTx, accounts, i);
    var r := WithoutTx(records, ts[i].id);
    WithoutTxOrdered(records, ts[i].id);
    WithoutTxUnique(records, ts[i].id);
    forall a | a in r ensures a.transaction in TxIds(ts2) {
      var x :| x in ts && x.id == a.transaction;
      var k :| 0 <= k < |ts| && ts[k] == x;
      assert x in ts2;
    }
  }

  /** No record names the primary key the next transaction gets. */
  lemma NoRecordsForNextTx(records: seq<Approval>, nextRec: nat, ts: seq<Transaction>, nextTx: nat, accounts: seq<Account>)
    requires ApprovalsValid(records, nextRec, ts) && TransactionsValid(ts, nextTx, accounts)
    ensures forall a :: a in records ==> a.transaction != nextTx
  {
    forall a | a in records ensures a.transaction != nextTx {
      var x :| x in ts && x.id == a.transaction;
    }
  }

  /** A new transaction under the next key, on an existing account, keeps the tables valid. */
  lemma AppendKeepsValid(ts: seq<Transaction>, records: seq<Approval>, nextTx: nat, nextRec: nat,
                         accounts: seq<Account>, t: Transaction)
    requires TransactionsValid(ts, nextTx, accounts) && ApprovalsValid(records, nextRec, ts)
    requires t.id == nextTx && t.account in AccountIds(accounts)
    ensures TransactionsValid(ts + [t], nextTx + 1, accounts)
    ensures ApprovalsValid(records, nextRec, ts + [t])
  {
    var ts2 := ts + [t];
    forall i, j | 0 <= i < j < |ts2| ensures ts2[i].id < ts2[j].id {
      if j == |ts| {
        assert ts2[i] in ts;
      }
    }
    forall id | id in TxIds(ts) ensures id in TxIds(ts2) {
      var x :| x in ts && x.id == id;
      assert x in ts2;
    }
  }

  /** The unsaved row of `create`, with the reference `generate_reference` computes. */
  method BuildRow(id: TxId, n: NewTransaction, refs: seq<string>) returns (t: Transaction)
    ensures t == NewRow(id, n, refs)
  {
    var reference := GenerateReference(n.kind, refs);
    t := Transaction(id, n.account, n.city, n.createdBy, n.kind, n.amount, n.description,
                     TxStatus.Pending, reference, n.metadata, None);
  }

  /** The loop at apps/transactions/utils.py:137-141: one unsaved PENDING record per approver. */
  method BuildRecords(start: nat, tx: TxId, ids: seq<UserId>) returns (records: seq<Approval>)
    ensures records == NewRecords(start, tx, ids)
  {
    records := [];
    var k := 0;
    while k < |ids|
      invariant 0 <= k <= |ids|
      invariant records == NewRecords(start, tx, ids[..k])
    {
      assert ids[..k + 1][..k] == ids[..k];
      records := records + [NewApproval(start + k, tx, ids[k])];
      k := k + 1;
    }
    assert ids[..k] == ids;
  }

  /** Rewriting a transaction row that keeps its key and account keeps both tables that refer to it valid. */
  lemma UpdateTxKeepsValid(ts: seq<Transaction>, next: nat, accounts: seq<Account>,
                           records: seq<Approval>, nextRecord: nat, ti: nat, t2: Transaction)
    requires TransactionsValid(ts, next, accounts) && ApprovalsValid(records, nextRecord, ts) && ti < |ts|
    requires t2.id == ts[ti].id && t2.account == ts[ti].account
    ensures TransactionsValid(ts[ti := t2], next, accounts) && ApprovalsValid(records, nextRecord, ts[ti := t2])
  {
    var u := ts[ti := t2];
    SameTxIds(ts, u);
    assert ts[ti] in ts;
    forall t | t in u ensures t.id < next && t.account in AccountIds(accounts) {
      var k :| 0 <= k < |u| && u[k] == t;
      assert ts[k] in ts;
    }
  }

  /** Deciding a record keeps its key, transaction and approver, and so the approval table valid. */
  lemma DecideKeepsApprovalsValid(records: seq<Approval>, next: nat, ts: seq<Transaction>, ri: nat, a2: Approval)
    requires ApprovalsValid(records, next, ts) && ri < |records|
    requires a2.id == records[ri].id && a2.transaction == records[ri].transaction && a2.approver == records[ri].approver
    ensures ApprovalsValid(records[ri := a2], next, ts)
  {
    var r := records[ri := a2];
    assert forall k :: 0 <= k < |r| ==> (r[k].id == records[k].id
      && r[k].transaction == records[k].transaction && r[k].approver == records[k].approver);
    forall x | x in r ensures x.id < next && x.transaction in TxIds(ts) {
      var k :| 0 <= k < |r| && r[k] == x;
      assert records[k] in records;
    }
  }

  /** Appending the new records of distinct approvers keeps the approval table valid. */
  lemma InsertKeepsApprovalsValid(records: seq<Approval>, next: nat, ts: seq<Transaction>, tx: TxId, ids: seq<UserId>)
    requires ApprovalsValid(records, next, ts) && tx in TxIds(ts)
    requires DistinctIds(ids) && !HasRecordFor(records, tx, ids)
    ensures ApprovalsValid(records + NewRecords(next, tx, ids), next + |ids|, ts)
  {
    InsertKeepsOrder(records, next, tx, ids);
    InsertKeepsBounds(records, next, ts, tx, ids);
    InsertKeepsUnique(records, next, tx, ids);
  }

  lemma InsertKeepsOrder(records: seq<Approval>, next: nat, tx: TxId, ids: seq<UserId>)
    requires IncreasingRecordIds(records) && forall a :: a in records ==> a.id < next
    ensures IncreasingRecordIds(records + NewRecords(next, tx, ids))
  {
    var all := records + NewRecords(next, tx, ids);
    forall i, j | 0 <= i < j < |all| ensures all[i].id < all[j].id {
      if i < |records| && j >= |records| {
        assert records[i] in records;
      }
    }
  }

  lemma InsertKeepsBounds(records: seq<Approval>, next: nat, ts: seq<Transaction>, tx: TxId, ids: seq<UserId>)
    requires tx in TxIds(ts) && forall a :: a in records ==> a.id < next && a.transaction in TxIds(ts)
    ensures forall x :: x in records + NewRecords(next, tx, ids) ==> x.id < next + |ids| && x.transaction in TxIds(ts)
  {
    var added := NewRecords(next, tx, ids);
    forall x | x in records + added ensures x.id < next + |ids| && x.transaction in TxIds(ts) {
      if x !in records {
        var k :| 0 <= k < |added| && added[k] == x;
      }
    }
  }

  lemma InsertKeepsUnique(records: seq<Approval>, next: nat, tx: TxId, ids: seq<UserId>)
    requires UniquePairs(records) && DistinctIds(ids) && !HasRecordFor(records, tx, ids)
    ensures UniquePairs(records + NewRecords(next, tx, ids))
  {
    var all := records + NewRecords(next, tx, ids);
    forall i, j | 0 <= i < j < |all|
      ensures !(all[i].transaction == all[j].transaction && all[i].approver == all[j].approver)
    {
      if j >= |records| {
        if i < |records| {
          assert records[i] in records;
          assert all[j].approver == ids[j - |records|];
        } else {
          assert all[i].approver == ids[i - |records|];
          assert all[j].approver == ids[j - |records|];
        }
      }
    }
  }

  /** Appending a row under the next key, of a pair not yet present, keeps the assignment table valid. */
  lemma AppendKeepsAssignmentsValid(rows: seq<Assignment>, next: nat, row: Assignment)
    requires AssignmentsValid(rows, next) && row.id == next && !AdminViews.HasPair(rows, row.kind, row.approver)
    ensures AssignmentsValid(rows + [row], next + 1)
  {
    var r := rows + [row];
    forall i, j | 0 <= i < j < |r| ensures r[i].id < r[j].id {
      if j == |rows| { assert r[i] in rows; }
    }
    forall i, j | 0 <= i < j < |r| ensures !(r[i].kind == r[j].kind && r[i].approver == r[j].approver) {
      if j == |rows| { assert !AdminViews.IsPair(rows[i], row.kind, row.approver); }
    }
  }

  /** Setting one row's active flag keeps the assignment table valid. */
  lemma FlagKeepsAssignmentsValid(rows: seq<Assignment>, next: nat, i: nat, b: bool)
    requires AssignmentsValid(rows, next) && i < |rows|
    ensures AssignmentsValid(rows[i := rows[i].(isActive := b)], next)
  {
    var r := rows[i := rows[i].(isActive := b)];
    assert forall k :: 0 <= k < |r| ==> r[k].id == rows[k].id && r[k].kind == rows[k].kind && r[k].approver == rows[k].approver;
    forall a | a in r ensures a.id < next {
      var k :| 0 <= k < |r| && r[k] == a;
      assert rows[k] in rows;
    }
  }

  /** Deleting one row keeps the assignment table valid. */
  lemma RemovedKeepsAssignmentsValid(rows: seq<Assignment>, next: nat, i: nat)
    requires AssignmentsValid(rows, next) && i < |rows|
    ensures AssignmentsValid(AdminViews.Removed(rows, i), next)
  {
    RemovedKeepsOrder(rows, i);
    RemovedKeepsUnique(rows, i);
    AdminViews.RemovedExactlyOne(rows, i);
  }

  lemma RemovedKeepsOrder(rows: seq<Assignment>, i: nat)
    requires i < |rows| && forall p, q :: 0 <= p < q < |rows| ==> rows[p].id < rows[q].id
    ensures var r := AdminViews.Removed(rows, i);
            forall p, q :: 0 <= p < q < |r| ==> r[p].id < r[q].id
  {
    var r := AdminViews.Removed(rows, i);
    AdminViews.RemovedAt(rows, i);
    forall k, l | 0 <= k < l < |r| ensures r[k].id < r[l].id {
      assert r[k] == rows[AdminViews.Skip(k, i)] && r[l] == rows[AdminViews.Skip(l, i)];
    }
  }

  lemma RemovedKeepsUnique(rows: seq<Assignment>, i: nat)
    requires i < |rows| && UniqueAssignments(rows)
    ensures UniqueAssignments(AdminViews.Removed(rows, i))
  {
    var r := AdminViews.Removed(rows, i);
    AdminViews.RemovedAt(rows, i);
    forall k, l | 0 <= k < l < |r|
      ensures !(r[k].kind == r[l].kind && r[k].approver == r[l].approver)
    {
      assert r[k] == rows[AdminViews.Skip(k, i)] && r[l] == rows[AdminViews.Skip(l, i)];
    }
  }

  /** A table that extends another keeps all of its pairs. */
  lemma PrefixKeepsPair(rows: seq<Assignment>, rows2: seq<Assignment>, kind: TxType, id: UserId)
    requires |rows2| >= |rows| && rows2[..|rows|] == rows && AdminViews.HasPair(rows, kind, id)
    ensures AdminViews.HasPair(rows2, kind, id)
  {
    var k :| 0 <= k < |rows| && AdminViews.IsPair(rows[k], kind, id);
    assert rows2[k] == rows[k];
  }

  /**
   * The loops of `ensure_approver_assignments` on the assignment table and
   * its counter: the kinds outside, the approvers inside.
   */
  method EnsureAssignments(rows0: seq<Assignment>, next0: nat, approvers: seq<User>) returns (rows: seq<Assignment>, next: nat)
    requires AssignmentsValid(rows0, next0)
    ensures AssignmentsValid(rows, next)
    ensures |rows| >= |rows0| && rows[..|rows0|] == rows0
    ensures forall u :: u in approvers ==> AdminViews.HasPair(rows, DEPOSIT, u.id) && AdminViews.HasPair(rows, WITHDRAWAL, u.id)
    ensures forall k :: |rows0| <= k < |rows| ==>
              rows[k].isActive && rows[k].kind in [DEPOSIT, WITHDRAWAL] && rows[k].approver in Ids(approvers)
    ensures (forall u :: u in approvers ==> AdminViews.HasPair(rows0, DEPOSIT, u.id) && AdminViews.HasPair(rows0, WITHDRAWAL, u.id))
            ==> rows == rows0
    ensures next == next0 + |rows| - |rows0|
  {
    var kinds := [DEPOSIT, WITHDRAWAL];
    ghost var complete := forall u :: u in approvers ==>
      AdminViews.HasPair(rows0, DEPOSIT, u.id) && AdminViews.HasPair(rows0, WITHDRAWAL, u.id);
    rows, next := rows0, next0;
    var p := 0;
    while p < |kinds|
      invariant 0 <= p <= |kinds|
      invariant AssignmentsValid(rows, next)
      invariant |rows| >= |rows0| && rows[..|rows0|] == rows0
      invariant forall q, u :: 0 <= q < p && u in approvers ==> AdminViews.HasPair(rows, kinds[q], u.id)
      invariant forall k :: |rows0| <= k < |rows| ==>
                  rows[k].isActive && rows[k].kind in kinds && rows[k].approver in Ids(approvers)
      invariant complete ==> rows == rows0
      invariant next == next0 + |rows| - |rows0|
    {
      var before := rows;
      rows, next := AssignEach(rows, next, kinds[p], approvers);
      AssignEachStep(rows0, before, rows, kinds, p, approvers);
      p := p + 1;
    }
    assert kinds[0] == DEPOSIT && kinds[1] == WITHDRAWAL;
  }

  /** The inner loop of `ensure_approver_assignments`: `get_or_create` of the pair of `kind` with each approver. */
  method AssignEach(rows0: seq<Assignment>, next0: nat, kind: TxType, approvers: seq<User>) returns (rows: seq<Assignment>, next: nat)
    requires AssignmentsValid(rows0, next0)
    ensures AssignmentsValid(rows, next)
    ensures |rows| >= |rows0| && rows[..|rows0|] == rows0
    ensures forall u :: u in approvers ==> AdminViews.HasPair(rows, kind, u.id)
    ensures forall k :: |rows0| <= k < |rows| ==>
              rows[k] == Assignment(rows[k].id, kind, rows[k].approver, true) && rows[k].approver in Ids(approvers)
    ensures (forall u :: u in approvers ==> AdminViews.HasPair(rows0, kind, u.id)) ==> rows == rows0
    ensures next == next0 + |rows| - |rows0|
  {
    ghost var complete := forall u :: u in approvers ==> AdminViews.HasPair(rows0, kind, u.id);
    rows, next := rows0, next0;
    var j := 0;
    while j < |approvers|
      invariant 0 <= j <= |approvers|
      invariant AssignInv(rows0, next0, rows, next, kind, approvers, j, complete)
    {
      rows, next := AssignOne(rows0, next0, rows, next, kind, approvers, j, complete);
      j := j + 1;
    }
    assert forall u :: u in approvers ==> exists i :: 0 <= i < |approvers| && approvers[i] == u;
  }

  /** What `AssignEach` knows after the first `j` approvers. */
  predicate AssignInv(rows0: seq<Assignment>, next0: nat, rows: seq<Assignment>, next: nat, kind: TxType,
                      approvers: seq<User>, j: nat, complete: bool)
    requires j <= |approvers|
  {
    AssignmentsValid(rows, next)
    && |rows| >= |rows0| && rows[..|rows0|] == rows0
    && (forall i :: 0 <= i < j ==> AdminViews.HasPair(rows, kind, approvers[i].id))
    && (forall k :: |rows0| <= k < |rows| ==>
          rows[k] == Assignment(rows[k].id, kind, rows[k].approver, true) && rows[k].approver in Ids(approvers))
    && (complete ==> rows == rows0)
    && next == next0 + |rows| - |rows0|
  }

  /** One turn of the inner loop: `get_or_create` of the pair of `kind` with `approvers[j]`. */
  method AssignOne(rows0: seq<Assignment>, next0: nat, rows: seq<Assignment>, next: nat, kind: TxType,
                   approvers: seq<User>, j: nat, ghost complete: bool) returns (rows2: seq<Assignment>, next2: nat)
    requires j < |approvers| && AssignInv(rows0, next0, rows, next, kind, approvers, j, complete)
    requires complete == forall u :: u in approvers ==> AdminViews.HasPair(rows0, kind, u.id)
    ensures AssignInv(rows0, next0, rows2, next2, kind, approvers, j + 1, complete)
  {
    var id := approvers[j].id;
    rows2, next2 := rows, next;
    if AdminViews.PairIndex(rows, kind, id).None? {
      AppendPairRows(rows0, rows, next, kind, approvers, j);
      AppendPairCovers(rows0, rows, next, kind, approvers, j);
      rows2, next2 := rows + [Assignment(next, kind, id, true)], next + 1;
    } else {
      assert AdminViews.HasPair(rows, kind, id);
    }
    assert forall i :: 0 <= i < j + 1 ==> AdminViews.HasPair(rows2, kind, approvers[i].id);
  }

  /** Adding the missing pair of `approvers[j]` keeps the table valid, its prefix, and the shape of the rows it added. */
  lemma AppendPairRows(rows0: seq<Assignment>, rows: seq<Assignment>, next: nat, kind: TxType,
                       approvers: seq<User>, j: nat)
    requires j < |approvers| && AssignmentsValid(rows, next) && !AdminViews.HasPair(rows, kind, approvers[j].id)
    requires |rows| >= |rows0| && rows[..|rows0|] == rows0
    requires forall k :: |rows0| <= k < |rows| ==>
               rows[k] == Assignment(rows[k].id, kind, rows[k].approver, true) && rows[k].approver in Ids(approvers)
    ensures var rows2 := rows + [Assignment(next, kind, approvers[j].id, true)];
            AssignmentsValid(rows2, next + 1)
            && |rows2| >= |rows0| && rows2[..|rows0|] == rows0
            && (forall k :: |rows0| <= k < |rows2| ==>
                  rows2[k] == Assignment(rows2[k].id, kind, rows2[k].approver, true) && rows2[k].approver in Ids(approvers))
  {
    var id := approvers[j].id;
    var row := Assignment(next, kind, id, true);
    var rows2 := rows + [row];
    assert Ids(approvers)[j] == id;
    AppendKeepsAssignmentsValid(rows, next, row);
    assert rows2[..|rows0|] == rows[..|rows0|];
    forall k | |rows0| <= k < |rows2|
      ensures rows2[k] == Assignment(rows2[k].id, kind, rows2[k].approver, true) && rows2[k].approver in Ids(approvers)
    {
      if k < |rows| {
        assert rows2[k] == rows[k];
      }
    }
  }

  /**
   * Adding the missing pair of `approvers[j]` covers the approvers up to `j`,
   * and shows that the table did not already cover them all.
   */
  lemma AppendPairCovers(rows0: seq<Assignment>, rows: seq<Assignment>, next: nat, kind: TxType,
                         approvers: seq<User>, j: nat)
    requires j < |approvers| && !AdminViews.HasPair(rows, kind, approvers[j].id)
    requires |rows| >= |rows0| && rows[..|rows0|] == rows0
    requires forall i :: 0 <= i < j ==> AdminViews.HasPair(rows, kind, approvers[i].id)
    ensures var rows2 := rows + [Assignment(next, kind, approvers[j].id, true)];
            forall i :: 0 <= i < j + 1 ==> AdminViews.HasPair(rows2, kind, approvers[i].id)
    ensures !forall u :: u in approvers ==> AdminViews.HasPair(rows0, kind, u.id)
  {
    var id := approvers[j].id;
    var row := Assignment(next, kind, id, true);
    var rows2 := rows + [row];
    assert approvers[j] in approvers;
    forall i | 0 <= i < j ensures AdminViews.HasPair(rows2, kind, approvers[i].id) {
      AdminViews.PairKeptByAppend(rows, row, kind, approvers[i].id);
    }
    assert AdminViews.IsPair(rows2[|rows|], kind, id);
    if AdminViews.HasPair(rows0, kind, id) {
      PrefixKeepsPair(rows0, rows, kind, id);
    }
  }

  /** What one pass of the outer loop of `ensure_approver_assignments` keeps and adds. */
  lemma AssignEachStep(rows0: seq<Assignment>, before: seq<Assignment>, rows: seq<Assignment>,
                       kinds: seq<TxType>, p: nat, approvers: seq<User>)
    requires p < |kinds|
    requires |before| >= |rows0| && before[..|rows0|] == rows0
    requires forall q, u :: 0 <= q < p && u in approvers ==> AdminViews.HasPair(before, kinds[q], u.id)
    requires forall k :: |rows0| <= k < |before| ==>
               before[k].isActive && before[k].kind in kinds && before[k].approver in Ids(approvers)
    requires |rows| >= |before| && rows[..|before|] == before
    requires forall u :: u in approvers ==> AdminViews.HasPair(rows, kinds[p], u.id)
    requires forall k :: |before| <= k < |rows| ==>
               rows[k] == Assignment(rows[k].id, kinds[p], rows[k].approver, true) && rows[k].approver in Ids(approvers)
    ensures |rows| >= |rows0| && rows[..|rows0|] == rows0
    ensures forall q, u :: 0 <= q < p + 1 && u in approvers ==> AdminViews.HasPair(rows, kinds[q], u.id)
    ensures forall k :: |rows0| <= k < |rows| ==>
              rows[k].isActive && rows[k].kind in kinds && rows[k].approver in Ids(approvers)
  {
    forall q, u | 0 <= q < p && u in approvers ensures AdminViews.HasPair(rows, kinds[q], u.id) {
      PrefixKeepsPair(before, rows, kinds[q], u.id);
    }
    forall k | |rows0| <= k < |rows|
      ensures rows[k].isActive && rows[k].kind in kinds && rows[k].approver in Ids(approvers)
    {
      if k < |before| {
        assert rows[k] == rows[..|before|][k] == before[k];
      }
    }
    assert rows[..|rows0|] == before[..|rows0|];
  }
}
