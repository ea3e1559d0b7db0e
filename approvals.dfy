/**
 * Approval records (apps/approvals/models.py): one row per (transaction,
 * approver), created PENDING and decided once. `Wallet.Approve` and
 * `Wallet.Reject` apply `Decide` to the table and then recompute the
 * transaction's status.
 */
module Approvals {
  import opened Wrappers
  import opened Accounts

  datatype ApprovalStatus = Pending | Approved | Rejected

  /** A `RequestApproval` row; `approvedAt` is the decision time. */
  datatype Approval = Approval(
    id: nat,
    transaction: nat,
    approver: UserId,
    status: ApprovalStatus,
    comments: Option<string>,
    approvedAt: Option<int>)

  /** A new record: PENDING, no comments, no decision time. */
  function NewApproval(id: nat, transaction: nat, approver: UserId): (a: Approval)
    ensures a.status == Pending && a.comments.None? && a.approvedAt.None?
    ensures a.id == id && a.transaction == transaction && a.approver == approver
  {
    Approval(id, transaction, approver, Pending, None, None)
  }

  /** `unique_together = ['transaction', 'approver']`. */
  predicate UniquePairs(records: seq<Approval>)
  {
    forall i, j :: 0 <= i < j < |records| ==>
      !(records[i].transaction == records[j].transaction && records[i].approver == records[j].approver)
  }

  /** `can_be_processed`: a PENDING record may be decided, whatever the other approvers did. */
  predicate CanBeProcessed(a: Approval)
  {
    a.status == Pending
  }

  predicate IsDecided(a: Approval)
  {
    a.status == Approved || a.status == Rejected
  }

  /**
   * The defensive check of `approve`/`reject`: another row (by id) for the
   * same transaction and approver that is already APPROVED or REJECTED.
   */
  predicate DecidedElsewhere(records: seq<Approval>, a: Approval)
  {
    exists k :: 0 <= k < |records| && records[k].id != a.id && records[k].transaction == a.transaction
      && records[k].approver == a.approver && IsDecided(records[k])
  }

  /**
   * Whether `approve`/`reject` goes through for this record, and the record
   * afterwards: it must be PENDING and no other row of the pair may be decided.
   */
  function Decide(records: seq<Approval>, a: Approval, to: ApprovalStatus, comments: Option<string>, now: int)
    : (r: (Approval, bool))
    requires to != Pending
    ensures r.1 <==> CanBeProcessed(a) && !DecidedElsewhere(records, a)
    ensures r.1 ==> r.0 == a.(status := to, comments := comments, approvedAt := Some(now))
    ensures !r.1 ==> r.0 == a
  {
    if a.status != Pending then (a, false)
    else if DecidedElsewhere(records, a) then (a, false)
    else (a.(status := to, comments := comments, approvedAt := Some(now)), true)
  }

  /** With unique pairs the defensive check never fires. */
  lemma UniqueMeansNotDecidedElsewhere(records: seq<Approval>, i: nat)
    requires i < |records| && UniquePairs(records)
    requires forall p, q :: 0 <= p < q < |records| ==> records[p].id != records[q].id
    ensures !DecidedElsewhere(records, records[i])
  {
  }

  /** Decisions are one-way: a decided record is never changed by a second approve or reject. */
  lemma DecisionIsFinal(records: seq<Approval>, a: Approval, to: ApprovalStatus, to2: ApprovalStatus,
                        c: Option<string>, c2: Option<string>, now: int, now2: int)
    requires to != Pending && to2 != Pending
    requires Decide(records, a, to, c, now).1
    ensures Decide(records, Decide(records, a, to, c, now).0, to2, c2, now2)
            == (Decide(records, a, to, c, now).0, false)
  {
  }
}
