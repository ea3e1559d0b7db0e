/**
 * The decision gates of the approval API (apps/approvals/views.py): the
 * checks `RequestApprovalView.update` makes before it calls `approve` or
 * `reject`, and those of the legacy deposit and withdrawal approval views.
 */
module ApprovalViews {
  import opened Wrappers
  import opened Accounts
  import opened Cities
  import opened AdminPanel
  import opened Transactions
  import opened Approvals
  import opened Refusals

  /** An APPROVED or REJECTED record of the user on the transaction (lines 193-197). */
  predicate DecidedByUser(records: seq<Approval>, tx: TxId, user: UserId)
  {
    exists a :: a in records && a.transaction == tx && a.approver == user && IsDecided(a)
  }

  /** The decision an action names: `approve` or `reject`; anything else is refused. */
  function ActionStatus(action: Option<string>): (r: Result<ApprovalStatus, Refusal>)
    ensures r.Ok? <==> action == Some("approve") || action == Some("reject")
    ensures r.Ok? ==> r.value == if action == Some("approve") then ApprovalStatus.Approved else ApprovalStatus.Rejected
    ensures r.Err? ==> r.error == InvalidAction
  {
    if action == Some("approve") then Ok(ApprovalStatus.Approved)
    else if action == Some("reject") then Ok(ApprovalStatus.Rejected)
    else Err(InvalidAction)
  }

  /**
   * `RequestApprovalView.update` on record `a` of transaction `t` (whose
   * account is `acct`): only the user's own PENDING records can be
   * addressed; a decided record of the user on the same transaction
   * refuses; an approval of a WITHDRAWAL the account cannot cover
   * refuses; a rejection is never balance-checked; any other action refuses.
   * The result is the decision to apply.
   */
  function RequestDecisionGate(u: User, a: Approval, records: seq<Approval>, action: Option<string>,
                               t: Transaction, acct: Account): (r: Result<ApprovalStatus, Refusal>)
    ensures r.Ok? <==> a.approver == u.id && a.status == ApprovalStatus.Pending
                       && !DecidedByUser(records, a.transaction, u.id)
                       && (action == Some("reject")
                           || (action == Some("approve") && (t.kind != WITHDRAWAL || CanWithdraw(acct, t.amount))))
    ensures r.Ok? ==> r == ActionStatus(action)
    ensures a.approver != u.id || a.status != ApprovalStatus.Pending ==> r == Err(NotFound)
    ensures a.approver == u.id && a.status == ApprovalStatus.Pending && DecidedByUser(records, a.transaction, u.id)
            ==> r == Err(AlreadyDecided)
    ensures r == Err(InsufficientBalance) ==> action == Some("approve") && t.kind == WITHDRAWAL
  {
    if a.approver != u.id || a.status != ApprovalStatus.Pending then Err(NotFound)
    else if DecidedByUser(records, a.transaction, u.id) then Err(AlreadyDecided)
    else if !CanBeProcessed(a) then Err(NotProcessable)
    else if action == Some("approve") then
      if t.kind == WITHDRAWAL && !CanWithdraw(acct, t.amount) then Err(InsufficientBalance)
      else Ok(ApprovalStatus.Approved)
    else if action == Some("reject") then Ok(ApprovalStatus.Rejected)
    else Err(InvalidAction)
  }

  /** `DepositApprovalView.update`: the user's own PENDING record, then the action; no balance check. */
  function LegacyDepositGate(u: User, a: Approval, action: Option<string>): (r: Result<ApprovalStatus, Refusal>)
    ensures r.Ok? <==> a.approver == u.id && a.status == ApprovalStatus.Pending && ActionStatus(action).Ok?
    ensures r.Ok? ==> r == ActionStatus(action)
  {
    if a.approver != u.id || a.status != ApprovalStatus.Pending then Err(NotFound)
    else ActionStatus(action)
  }

  /**
   * `WithdrawalApprovalView.update`: as the deposit view, but an approval
   * is refused when the account cannot cover the amount.
   */
  function LegacyWithdrawalGate(u: User, a: Approval, action: Option<string>, t: Transaction, acct: Account)
    : (r: Result<ApprovalStatus, Refusal>)
    ensures r.Ok? <==> a.approver == u.id && a.status == ApprovalStatus.Pending
                       && (action == Some("reject") || (action == Some("approve") && CanWithdraw(acct, t.amount)))
    ensures r.Ok? ==> r == ActionStatus(action)
  {
    if a.approver != u.id || a.status != ApprovalStatus.Pending then Err(NotFound)
    else if action == Some("approve") && !CanWithdraw(acct, t.amount) then Err(InsufficientBalance)
    else ActionStatus(action)
  }

  /**
   * When the user has decided nothing else on the transaction, the current
   * gate lets through exactly what the legacy gate of the transaction's
   * type does.
   */
  lemma GateAgreesWithLegacy(u: User, a: Approval, records: seq<Approval>, action: Option<string>,
                             t: Transaction, acct: Account)
    requires !DecidedByUser(records, a.transaction, u.id)
    ensures t.kind == WITHDRAWAL ==>
              RequestDecisionGate(u, a, records, action, t, acct).Ok? == LegacyWithdrawalGate(u, a, action, t, acct).Ok?
    ensures t.kind != WITHDRAWAL ==>
              RequestDecisionGate(u, a, records, action, t, acct).Ok? == LegacyDepositGate(u, a, action).Ok?
  {
  }
}
